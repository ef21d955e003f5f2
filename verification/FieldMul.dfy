/** Multiplication and squaring of field elements. */
module FieldMul {
  import opened Arith
  import opened Field25519

  function Mul(a: int, b: int): int {
    a * b
  }

  // ----- the limbs of a product before carrying -----

  // Limb k collects the products f_i g_j with i + j = k, twice when both limbs are of 25 bits,
  // and nineteen times those with i + j = k + 10.

  ghost function Column0(f: Fe, g: Fe): int {
    Mul(f.x0, g.x0) + Mul(2 * f.x1, 19 * g.x9) + Mul(f.x2, 19 * g.x8) + Mul(2 * f.x3, 19 * g.x7) + Mul(f.x4, 19 * g.x6)
    + Mul(2 * f.x5, 19 * g.x5) + Mul(f.x6, 19 * g.x4) + Mul(2 * f.x7, 19 * g.x3) + Mul(f.x8, 19 * g.x2)
      + Mul(2 * f.x9, 19 * g.x1)
  }

  ghost function Column1(f: Fe, g: Fe): int {
    Mul(f.x0, g.x1) + Mul(f.x1, g.x0) + Mul(f.x2, 19 * g.x9) + Mul(f.x3, 19 * g.x8) + Mul(f.x4, 19 * g.x7)
    + Mul(f.x5, 19 * g.x6) + Mul(f.x6, 19 * g.x5) + Mul(f.x7, 19 * g.x4) + Mul(f.x8, 19 * g.x3) + Mul(f.x9, 19 * g.x2)
  }

  ghost function Column2(f: Fe, g: Fe): int {
    Mul(f.x0, g.x2) + Mul(2 * f.x1, g.x1) + Mul(f.x2, g.x0) + Mul(2 * f.x3, 19 * g.x9) + Mul(f.x4, 19 * g.x8)
    + Mul(2 * f.x5, 19 * g.x7) + Mul(f.x6, 19 * g.x6) + Mul(2 * f.x7, 19 * g.x5) + Mul(f.x8, 19 * g.x4)
      + Mul(2 * f.x9, 19 * g.x3)
  }

  ghost function Column3(f: Fe, g: Fe): int {
    Mul(f.x0, g.x3) + Mul(f.x1, g.x2) + Mul(f.x2, g.x1) + Mul(f.x3, g.x0) + Mul(f.x4, 19 * g.x9)
    + Mul(f.x5, 19 * g.x8) + Mul(f.x6, 19 * g.x7) + Mul(f.x7, 19 * g.x6) + Mul(f.x8, 19 * g.x5) + Mul(f.x9, 19 * g.x4)
  }

  ghost function Column4(f: Fe, g: Fe): int {
    Mul(f.x0, g.x4) + Mul(2 * f.x1, g.x3) + Mul(f.x2, g.x2) + Mul(2 * f.x3, g.x1) + Mul(f.x4, g.x0)
    + Mul(2 * f.x5, 19 * g.x9) + Mul(f.x6, 19 * g.x8) + Mul(2 * f.x7, 19 * g.x7) + Mul(f.x8, 19 * g.x6)
      + Mul(2 * f.x9, 19 * g.x5)
  }

  ghost function Column5(f: Fe, g: Fe): int {
    Mul(f.x0, g.x5) + Mul(f.x1, g.x4) + Mul(f.x2, g.x3) + Mul(f.x3, g.x2) + Mul(f.x4, g.x1)
    + Mul(f.x5, g.x0) + Mul(f.x6, 19 * g.x9) + Mul(f.x7, 19 * g.x8) + Mul(f.x8, 19 * g.x7) + Mul(f.x9, 19 * g.x6)
  }

  ghost function Column6(f: Fe, g: Fe): int {
    Mul(f.x0, g.x6) + Mul(2 * f.x1, g.x5) + Mul(f.x2, g.x4) + Mul(2 * f.x3, g.x3) + Mul(f.x4, g.x2)
    + Mul(2 * f.x5, g.x1) + Mul(f.x6, g.x0) + Mul(2 * f.x7, 19 * g.x9) + Mul(f.x8, 19 * g.x8) + Mul(2 * f.x9, 19 * g.x7)
  }

  ghost function Column7(f: Fe, g: Fe): int {
    Mul(f.x0, g.x7) + Mul(f.x1, g.x6) + Mul(f.x2, g.x5) + Mul(f.x3, g.x4) + Mul(f.x4, g.x3)
    + Mul(f.x5, g.x2) + Mul(f.x6, g.x1) + Mul(f.x7, g.x0) + Mul(f.x8, 19 * g.x9) + Mul(f.x9, 19 * g.x8)
  }

  ghost function Column8(f: Fe, g: Fe): int {
    Mul(f.x0, g.x8) + Mul(2 * f.x1, g.x7) + Mul(f.x2, g.x6) + Mul(2 * f.x3, g.x5) + Mul(f.x4, g.x4)
    + Mul(2 * f.x5, g.x3) + Mul(f.x6, g.x2) + Mul(2 * f.x7, g.x1) + Mul(f.x8, g.x0) + Mul(2 * f.x9, 19 * g.x9)
  }

  ghost function Column9(f: Fe, g: Fe): int {
    Mul(f.x0, g.x9) + Mul(f.x1, g.x8) + Mul(f.x2, g.x7) + Mul(f.x3, g.x6) + Mul(f.x4, g.x5)
    + Mul(f.x5, g.x4) + Mul(f.x6, g.x3) + Mul(f.x7, g.x2) + Mul(f.x8, g.x1) + Mul(f.x9, g.x0)
  }

  ghost function Columns(f: Fe, g: Fe): Ten {
    Ten(Column0(f, g), Column1(f, g), Column2(f, g), Column3(f, g), Column4(f, g),
      Column5(f, g), Column6(f, g), Column7(f, g), Column8(f, g), Column9(f, g))
  }

  /** The largest limb of an operand, and the largest product of limbs. */
  const MAX_LIMB: int := 110729625
  const MAX_PRODUCT: int := 38 * 110729625 * 110729625

  lemma MulBound(a: int, b: int, x: nat, y: nat)
    requires -(x as int) <= a <= x && -(y as int) <= b <= y
    ensures -(x * y) <= Mul(a, b) <= x * y
  {
    if a >= 0 {
      MulMonotone(a, b, y);
      MulMonotone(a, -(y as int), b);
      MulMonotone(y, a, x);
    } else {
      MulMonotone(-a, b, y);
      MulMonotone(-a, -(y as int), b);
      MulMonotone(y, -a, x);
    }
  }

  /** a * (int64_t) b */
  method Product(a: int32, b: int32) returns (m: int64)
    requires -2 * MAX_LIMB <= a <= 2 * MAX_LIMB && -19 * MAX_LIMB <= b <= 19 * MAX_LIMB
    ensures m == Mul(a, b) && -MAX_PRODUCT <= m <= MAX_PRODUCT
  {
    MulBound(a, b, 2 * MAX_LIMB, 19 * MAX_LIMB);
    m := a * b;
  }

  method TenProducts(a0: int32, b0: int32, a1: int32, b1: int32, a2: int32, b2: int32, a3: int32, b3: int32, a4: int32,
      b4: int32,
      a5: int32, b5: int32, a6: int32, b6: int32, a7: int32, b7: int32, a8: int32, b8: int32, a9: int32, b9: int32)
    returns (h: int64)
    requires -2 * MAX_LIMB <= a0 <= 2 * MAX_LIMB && -19 * MAX_LIMB <= b0 <= 19 * MAX_LIMB
    requires -2 * MAX_LIMB <= a1 <= 2 * MAX_LIMB && -19 * MAX_LIMB <= b1 <= 19 * MAX_LIMB
    requires -2 * MAX_LIMB <= a2 <= 2 * MAX_LIMB && -19 * MAX_LIMB <= b2 <= 19 * MAX_LIMB
    requires -2 * MAX_LIMB <= a3 <= 2 * MAX_LIMB && -19 * MAX_LIMB <= b3 <= 19 * MAX_LIMB
    requires -2 * MAX_LIMB <= a4 <= 2 * MAX_LIMB && -19 * MAX_LIMB <= b4 <= 19 * MAX_LIMB
    requires -2 * MAX_LIMB <= a5 <= 2 * MAX_LIMB && -19 * MAX_LIMB <= b5 <= 19 * MAX_LIMB
    requires -2 * MAX_LIMB <= a6 <= 2 * MAX_LIMB && -19 * MAX_LIMB <= b6 <= 19 * MAX_LIMB
    requires -2 * MAX_LIMB <= a7 <= 2 * MAX_LIMB && -19 * MAX_LIMB <= b7 <= 19 * MAX_LIMB
    requires -2 * MAX_LIMB <= a8 <= 2 * MAX_LIMB && -19 * MAX_LIMB <= b8 <= 19 * MAX_LIMB
    requires -2 * MAX_LIMB <= a9 <= 2 * MAX_LIMB && -19 * MAX_LIMB <= b9 <= 19 * MAX_LIMB
    ensures h == Mul(a0, b0) + Mul(a1, b1) + Mul(a2, b2) + Mul(a3, b3) + Mul(a4, b4)
      + Mul(a5, b5) + Mul(a6, b6) + Mul(a7, b7) + Mul(a8, b8) + Mul(a9, b9)
    ensures -10 * MAX_PRODUCT <= h <= 10 * MAX_PRODUCT
  {
    hide Mul;
    h := Product(a0, b0);
    var m1 := Product(a1, b1);
    h := h + m1;
    var m2 := Product(a2, b2);
    h := h + m2;
    var m3 := Product(a3, b3);
    h := h + m3;
    var m4 := Product(a4, b4);
    h := h + m4;
    var m5 := Product(a5, b5);
    h := h + m5;
    var m6 := Product(a6, b6);
    h := h + m6;
    var m7 := Product(a7, b7);
    h := h + m7;
    var m8 := Product(a8, b8);
    h := h + m8;
    var m9 := Product(a9, b9);
    h := h + m9;
  }

  /** The ten sums of products, with the factors 2 and 19 multiplied in beforehand. */
  method MulColumns(f: Fe, g: Fe) returns (w: Wide)
    requires MulInput(f) && MulInput(g)
    ensures Carriable(w)
    ensures WideLimbs(w) == Columns(f, g)
  {
    hide Mul;
    var g1_19: int32 := 19 * g.x1;
    var g2_19: int32 := 19 * g.x2;
    var g3_19: int32 := 19 * g.x3;
    var g4_19: int32 := 19 * g.x4;
    var g5_19: int32 := 19 * g.x5;
    var g6_19: int32 := 19 * g.x6;
    var g7_19: int32 := 19 * g.x7;
    var g8_19: int32 := 19 * g.x8;
    var g9_19: int32 := 19 * g.x9;
    var f1_2: int32 := 2 * f.x1;
    var f3_2: int32 := 2 * f.x3;
    var f5_2: int32 := 2 * f.x5;
    var f7_2: int32 := 2 * f.x7;
    var f9_2: int32 := 2 * f.x9;
    var h0 := TenProducts(f.x0, g.x0, f1_2, g9_19, f.x2, g8_19, f3_2, g7_19, f.x4, g6_19, f5_2, g5_19, f.x6, g4_19,
        f7_2, g3_19, f.x8, g2_19, f9_2, g1_19);
    var h1 := TenProducts(f.x0, g.x1, f.x1, g.x0, f.x2, g9_19, f.x3, g8_19, f.x4, g7_19, f.x5, g6_19, f.x6, g5_19,
        f.x7, g4_19, f.x8, g3_19, f.x9, g2_19);
    var h2 := TenProducts(f.x0, g.x2, f1_2, g.x1, f.x2, g.x0, f3_2, g9_19, f.x4, g8_19, f5_2, g7_19, f.x6, g6_19, f7_2,
        g5_19, f.x8, g4_19, f9_2, g3_19);
    var h3 := TenProducts(f.x0, g.x3, f.x1, g.x2, f.x2, g.x1, f.x3, g.x0, f.x4, g9_19, f.x5, g8_19, f.x6, g7_19, f.x7,
        g6_19, f.x8, g5_19, f.x9, g4_19);
    var h4 := TenProducts(f.x0, g.x4, f1_2, g.x3, f.x2, g.x2, f3_2, g.x1, f.x4, g.x0, f5_2, g9_19, f.x6, g8_19, f7_2,
        g7_19, f.x8, g6_19, f9_2, g5_19);
    var h5 := TenProducts(f.x0, g.x5, f.x1, g.x4, f.x2, g.x3, f.x3, g.x2, f.x4, g.x1, f.x5, g.x0, f.x6, g9_19, f.x7,
        g8_19, f.x8, g7_19, f.x9, g6_19);
    var h6 := TenProducts(f.x0, g.x6, f1_2, g.x5, f.x2, g.x4, f3_2, g.x3, f.x4, g.x2, f5_2, g.x1, f.x6, g.x0, f7_2,
        g9_19, f.x8, g8_19, f9_2, g7_19);
    var h7 := TenProducts(f.x0, g.x7, f.x1, g.x6, f.x2, g.x5, f.x3, g.x4, f.x4, g.x3, f.x5, g.x2, f.x6, g.x1, f.x7,
        g.x0, f.x8, g9_19, f.x9, g8_19);
    var h8 := TenProducts(f.x0, g.x8, f1_2, g.x7, f.x2, g.x6, f3_2, g.x5, f.x4, g.x4, f5_2, g.x3, f.x6, g.x2, f7_2,
        g.x1, f.x8, g.x0, f9_2, g9_19);
    var h9 := TenProducts(f.x0, g.x9, f.x1, g.x8, f.x2, g.x7, f.x3, g.x6, f.x4, g.x5, f.x5, g.x4, f.x6, g.x3, f.x7,
        g.x2, f.x8, g.x1, f.x9, g.x0);
    w := Wide(h0, h1, h2, h3, h4, h5, h6, h7, h8, h9);
  }

  // ----- the columns are worth the product -----

  /** Both factors may be scaled before multiplying. */
  lemma Scale(a: int, b: int)
    ensures Mul(2 * a, b) == 2 * Mul(a, b) && Mul(a, 19 * b) == 19 * Mul(a, b) && Mul(2 * a, 19 * b) == 38 * Mul(a, b)
  {
  }

  lemma Distribute(x: int, a: int, c: int, b: int)
    ensures Mul(x, a + c * b) == Mul(x, a) + c * Mul(x, b)
  {
  }

  lemma Swap(a: int, b: int)
    ensures Mul(a, b) == Mul(b, a)
  {
  }

  /** A factor may be multiplied into every limb. */
  lemma Spread(x: int, g: Fe)
    ensures Mul(x, Val(g)) == Number(Mul(x, g.x0), Mul(x, g.x1), Mul(x, g.x2), Mul(x, g.x3), Mul(x, g.x4),
      Mul(x, g.x5), Mul(x, g.x6), Mul(x, g.x7), Mul(x, g.x8), Mul(x, g.x9))
  {
    hide Mul;
    var t8 := g.x8 + TWO26 * g.x9;
    var t7 := g.x7 + TWO25 * t8;
    var t6 := g.x6 + TWO26 * t7;
    var t5 := g.x5 + TWO25 * t6;
    var t4 := g.x4 + TWO26 * t5;
    var t3 := g.x3 + TWO25 * t4;
    var t2 := g.x2 + TWO26 * t3;
    var t1 := g.x1 + TWO25 * t2;
    Distribute(x, g.x8, TWO26, g.x9);
    Distribute(x, g.x7, TWO25, t8);
    Distribute(x, g.x6, TWO26, t7);
    Distribute(x, g.x5, TWO25, t6);
    Distribute(x, g.x4, TWO26, t5);
    Distribute(x, g.x3, TWO25, t4);
    Distribute(x, g.x2, TWO26, t3);
    Distribute(x, g.x1, TWO25, t2);
    Distribute(x, g.x0, TWO26, t1);
  }

  // Limb i of f times g, sorted into columns: what passes limb 9 comes back nineteen times.

  ghost function Row0(f: Fe, g: Fe): Ten {
    Ten(Mul(f.x0, g.x0), Mul(f.x0, g.x1), Mul(f.x0, g.x2), Mul(f.x0, g.x3), Mul(f.x0, g.x4),
      Mul(f.x0, g.x5), Mul(f.x0, g.x6), Mul(f.x0, g.x7), Mul(f.x0, g.x8), Mul(f.x0, g.x9))
  }

  lemma RowProduct0(f: Fe, g: Fe) returns (k: int)
    ensures 0x1 * Mul(f.x0, Val(g)) == TenVal(Row0(f, g)) + P * k
  {
    hide Mul;
    Spread(f.x0, g);
    k := 0;
  }

  ghost function Row1(f: Fe, g: Fe): Ten {
    Ten(Mul(2 * f.x1, 19 * g.x9), Mul(f.x1, g.x0), Mul(2 * f.x1, g.x1), Mul(f.x1, g.x2), Mul(2 * f.x1, g.x3),
      Mul(f.x1, g.x4), Mul(2 * f.x1, g.x5), Mul(f.x1, g.x6), Mul(2 * f.x1, g.x7), Mul(f.x1, g.x8))
  }

  lemma RowProduct1(f: Fe, g: Fe) returns (k: int)
    ensures 0x4000000 * Mul(f.x1, Val(g)) == TenVal(Row1(f, g)) + P * k
  {
    hide Mul;
    Spread(f.x1, g);
    Scale(f.x1, g.x1);
    Scale(f.x1, g.x3);
    Scale(f.x1, g.x5);
    Scale(f.x1, g.x7);
    Scale(f.x1, g.x9);
    k := 2 * Mul(f.x1, g.x9);
  }

  ghost function Row2(f: Fe, g: Fe): Ten {
    Ten(Mul(f.x2, 19 * g.x8), Mul(f.x2, 19 * g.x9), Mul(f.x2, g.x0), Mul(f.x2, g.x1), Mul(f.x2, g.x2),
      Mul(f.x2, g.x3), Mul(f.x2, g.x4), Mul(f.x2, g.x5), Mul(f.x2, g.x6), Mul(f.x2, g.x7))
  }

  lemma RowProduct2(f: Fe, g: Fe) returns (k: int)
    ensures 0x8000000000000 * Mul(f.x2, Val(g)) == TenVal(Row2(f, g)) + P * k
  {
    hide Mul;
    Spread(f.x2, g);
    Scale(f.x2, g.x8);
    Scale(f.x2, g.x9);
    k := 1 * Mul(f.x2, g.x8) + 0x4000000 * Mul(f.x2, g.x9);
  }

  ghost function Row3(f: Fe, g: Fe): Ten {
    Ten(Mul(2 * f.x3, 19 * g.x7), Mul(f.x3, 19 * g.x8), Mul(2 * f.x3, 19 * g.x9), Mul(f.x3, g.x0), Mul(2 * f.x3, g.x1),
      Mul(f.x3, g.x2), Mul(2 * f.x3, g.x3), Mul(f.x3, g.x4), Mul(2 * f.x3, g.x5), Mul(f.x3, g.x6))
  }

  lemma RowProduct3(f: Fe, g: Fe) returns (k: int)
    ensures 0x20000000000000000000 * Mul(f.x3, Val(g)) == TenVal(Row3(f, g)) + P * k
  {
    hide Mul;
    Spread(f.x3, g);
    Scale(f.x3, g.x1);
    Scale(f.x3, g.x3);
    Scale(f.x3, g.x5);
    Scale(f.x3, g.x7);
    Scale(f.x3, g.x8);
    Scale(f.x3, g.x9);
    k := 2 * Mul(f.x3, g.x7) + 0x4000000 * Mul(f.x3, g.x8) + 0x10000000000000 * Mul(f.x3, g.x9);
  }

  ghost function Row4(f: Fe, g: Fe): Ten {
    Ten(Mul(f.x4, 19 * g.x6), Mul(f.x4, 19 * g.x7), Mul(f.x4, 19 * g.x8), Mul(f.x4, 19 * g.x9), Mul(f.x4, g.x0),
      Mul(f.x4, g.x1), Mul(f.x4, g.x2), Mul(f.x4, g.x3), Mul(f.x4, g.x4), Mul(f.x4, g.x5))
  }

  lemma RowProduct4(f: Fe, g: Fe) returns (k: int)
    ensures 0x40000000000000000000000000 * Mul(f.x4, Val(g)) == TenVal(Row4(f, g)) + P * k
  {
    hide Mul;
    Spread(f.x4, g);
    Scale(f.x4, g.x6);
    Scale(f.x4, g.x7);
    Scale(f.x4, g.x8);
    Scale(f.x4, g.x9);
    k := 1 * Mul(f.x4, g.x6) + 0x4000000 * Mul(f.x4, g.x7) + 0x8000000000000 * Mul(f.x4, g.x8)
      + 0x20000000000000000000 * Mul(f.x4, g.x9);
  }

  ghost function Row5(f: Fe, g: Fe): Ten {
    Ten(Mul(2 * f.x5, 19 * g.x5), Mul(f.x5, 19 * g.x6), Mul(2 * f.x5, 19 * g.x7), Mul(f.x5, 19 * g.x8),
      Mul(2 * f.x5, 19 * g.x9),
      Mul(f.x5, g.x0), Mul(2 * f.x5, g.x1), Mul(f.x5, g.x2), Mul(2 * f.x5, g.x3), Mul(f.x5, g.x4))
  }

  lemma RowProduct5(f: Fe, g: Fe) returns (k: int)
    ensures 0x100000000000000000000000000000000 * Mul(f.x5, Val(g)) == TenVal(Row5(f, g)) + P * k
  {
    hide Mul;
    Spread(f.x5, g);
    Scale(f.x5, g.x1);
    Scale(f.x5, g.x3);
    Scale(f.x5, g.x5);
    Scale(f.x5, g.x6);
    Scale(f.x5, g.x7);
    Scale(f.x5, g.x8);
    Scale(f.x5, g.x9);
    k := 2 * Mul(f.x5, g.x5) + 0x4000000 * Mul(f.x5, g.x6) + 0x10000000000000 * Mul(f.x5, g.x7)
      + 0x20000000000000000000 * Mul(f.x5, g.x8) + 0x80000000000000000000000000 * Mul(f.x5, g.x9);
  }

  ghost function Row6(f: Fe, g: Fe): Ten {
    Ten(Mul(f.x6, 19 * g.x4), Mul(f.x6, 19 * g.x5), Mul(f.x6, 19 * g.x6), Mul(f.x6, 19 * g.x7), Mul(f.x6, 19 * g.x8),
      Mul(f.x6, 19 * g.x9), Mul(f.x6, g.x0), Mul(f.x6, g.x1), Mul(f.x6, g.x2), Mul(f.x6, g.x3))
  }

  lemma RowProduct6(f: Fe, g: Fe) returns (k: int)
    ensures 0x200000000000000000000000000000000000000 * Mul(f.x6, Val(g)) == TenVal(Row6(f, g)) + P * k
  {
    hide Mul;
    Spread(f.x6, g);
    Scale(f.x6, g.x4);
    Scale(f.x6, g.x5);
    Scale(f.x6, g.x6);
    Scale(f.x6, g.x7);
    Scale(f.x6, g.x8);
    Scale(f.x6, g.x9);
    k := 1 * Mul(f.x6, g.x4) + 0x4000000 * Mul(f.x6, g.x5) + 0x8000000000000 * Mul(f.x6, g.x6)
      + 0x20000000000000000000 * Mul(f.x6, g.x7) + 0x40000000000000000000000000 * Mul(f.x6, g.x8)
      + 0x100000000000000000000000000000000 * Mul(f.x6, g.x9);
  }

  ghost function Row7(f: Fe, g: Fe): Ten {
    Ten(Mul(2 * f.x7, 19 * g.x3), Mul(f.x7, 19 * g.x4), Mul(2 * f.x7, 19 * g.x5), Mul(f.x7, 19 * g.x6),
      Mul(2 * f.x7, 19 * g.x7),
      Mul(f.x7, 19 * g.x8), Mul(2 * f.x7, 19 * g.x9), Mul(f.x7, g.x0), Mul(2 * f.x7, g.x1), Mul(f.x7, g.x2))
  }

  lemma RowProduct7(f: Fe, g: Fe) returns (k: int)
    ensures 0x800000000000000000000000000000000000000000000 * Mul(f.x7, Val(g)) == TenVal(Row7(f, g)) + P * k
  {
    hide Mul;
    Spread(f.x7, g);
    Scale(f.x7, g.x1);
    Scale(f.x7, g.x3);
    Scale(f.x7, g.x4);
    Scale(f.x7, g.x5);
    Scale(f.x7, g.x6);
    Scale(f.x7, g.x7);
    Scale(f.x7, g.x8);
    Scale(f.x7, g.x9);
    k := 2 * Mul(f.x7, g.x3) + 0x4000000 * Mul(f.x7, g.x4) + 0x10000000000000 * Mul(f.x7, g.x5)
      + 0x20000000000000000000 * Mul(f.x7, g.x6) + 0x80000000000000000000000000 * Mul(f.x7, g.x7)
      + 0x100000000000000000000000000000000 * Mul(f.x7, g.x8)
      + 0x400000000000000000000000000000000000000 * Mul(f.x7, g.x9);
  }

  ghost function Row8(f: Fe, g: Fe): Ten {
    Ten(Mul(f.x8, 19 * g.x2), Mul(f.x8, 19 * g.x3), Mul(f.x8, 19 * g.x4), Mul(f.x8, 19 * g.x5), Mul(f.x8, 19 * g.x6),
      Mul(f.x8, 19 * g.x7), Mul(f.x8, 19 * g.x8), Mul(f.x8, 19 * g.x9), Mul(f.x8, g.x0), Mul(f.x8, g.x1))
  }

  lemma RowProduct8(f: Fe, g: Fe) returns (k: int)
    ensures 0x1000000000000000000000000000000000000000000000000000 * Mul(f.x8, Val(g)) == TenVal(Row8(f, g)) + P * k
  {
    hide Mul;
    Spread(f.x8, g);
    Scale(f.x8, g.x2);
    Scale(f.x8, g.x3);
    Scale(f.x8, g.x4);
    Scale(f.x8, g.x5);
    Scale(f.x8, g.x6);
    Scale(f.x8, g.x7);
    Scale(f.x8, g.x8);
    Scale(f.x8, g.x9);
    k := 1 * Mul(f.x8, g.x2) + 0x4000000 * Mul(f.x8, g.x3) + 0x8000000000000 * Mul(f.x8, g.x4)
      + 0x20000000000000000000 * Mul(f.x8, g.x5) + 0x40000000000000000000000000 * Mul(f.x8, g.x6)
      + 0x100000000000000000000000000000000 * Mul(f.x8, g.x7)
      + 0x200000000000000000000000000000000000000 * Mul(f.x8, g.x8)
      + 0x800000000000000000000000000000000000000000000 * Mul(f.x8, g.x9);
  }

  ghost function Row9(f: Fe, g: Fe): Ten {
    Ten(Mul(2 * f.x9, 19 * g.x1), Mul(f.x9, 19 * g.x2), Mul(2 * f.x9, 19 * g.x3), Mul(f.x9, 19 * g.x4),
      Mul(2 * f.x9, 19 * g.x5),
      Mul(f.x9, 19 * g.x6), Mul(2 * f.x9, 19 * g.x7), Mul(f.x9, 19 * g.x8), Mul(2 * f.x9, 19 * g.x9), Mul(f.x9, g.x0))
  }

  lemma RowProduct9(f: Fe, g: Fe) returns (k: int)
    ensures 0x4000000000000000000000000000000000000000000000000000000000 * Mul(f.x9, Val(g))
      == TenVal(Row9(f, g)) + P * k
  {
    hide Mul;
    Spread(f.x9, g);
    Scale(f.x9, g.x1);
    Scale(f.x9, g.x2);
    Scale(f.x9, g.x3);
    Scale(f.x9, g.x4);
    Scale(f.x9, g.x5);
    Scale(f.x9, g.x6);
    Scale(f.x9, g.x7);
    Scale(f.x9, g.x8);
    Scale(f.x9, g.x9);
    k := 2 * Mul(f.x9, g.x1) + 0x4000000 * Mul(f.x9, g.x2) + 0x10000000000000 * Mul(f.x9, g.x3)
      + 0x20000000000000000000 * Mul(f.x9, g.x4) + 0x80000000000000000000000000 * Mul(f.x9, g.x5)
      + 0x100000000000000000000000000000000 * Mul(f.x9, g.x6)
      + 0x400000000000000000000000000000000000000 * Mul(f.x9, g.x7)
      + 0x800000000000000000000000000000000000000000000 * Mul(f.x9, g.x8)
      + 0x2000000000000000000000000000000000000000000000000000 * Mul(f.x9, g.x9);
  }

  ghost function Add(s: Ten, t: Ten): Ten {
    Ten(s.h0 + t.h0, s.h1 + t.h1, s.h2 + t.h2, s.h3 + t.h3, s.h4 + t.h4, s.h5 + t.h5, s.h6 + t.h6, s.h7 + t.h7,
      s.h8 + t.h8, s.h9 + t.h9)
  }

  lemma AddVal(s: Ten, t: Ten)
    ensures TenVal(Add(s, t)) == TenVal(s) + TenVal(t)
  {
  }

  ghost function Rows(f: Fe, g: Fe): Ten {
    Add(Add(Add(Add(Row0(f, g), Row1(f, g)), Add(Row2(f, g), Row3(f, g))), Add(Row4(f, g), Row5(f, g))),
      Add(Add(Row6(f, g), Row7(f, g)), Add(Row8(f, g), Row9(f, g))))
  }

  lemma RowsAreColumns(f: Fe, g: Fe)
    ensures Rows(f, g) == Columns(f, g)
  {
    hide Mul;
  }

  lemma RowsVal(f: Fe, g: Fe)
    ensures TenVal(Rows(f, g)) == TenVal(Row0(f, g)) + TenVal(Row1(f, g)) + TenVal(Row2(f, g)) + TenVal(Row3(f, g))
        + TenVal(Row4(f, g))
      + TenVal(Row5(f, g)) + TenVal(Row6(f, g)) + TenVal(Row7(f, g)) + TenVal(Row8(f, g)) + TenVal(Row9(f, g))
  {
    hide TenVal, Row0, Row1, Row2, Row3, Row4, Row5, Row6, Row7, Row8, Row9, Add;
    AddVal(Row0(f, g), Row1(f, g));
    AddVal(Row2(f, g), Row3(f, g));
    AddVal(Row4(f, g), Row5(f, g));
    AddVal(Row6(f, g), Row7(f, g));
    AddVal(Row8(f, g), Row9(f, g));
    var low, high := Add(Add(Row0(f, g), Row1(f, g)), Add(Row2(f, g), Row3(f, g))), Add(Row4(f, g), Row5(f, g));
    AddVal(Add(Row0(f, g), Row1(f, g)), Add(Row2(f, g), Row3(f, g)));
    AddVal(low, high);
    AddVal(Add(Row6(f, g), Row7(f, g)), Add(Row8(f, g), Row9(f, g)));
    AddVal(Add(low, high), Add(Add(Row6(f, g), Row7(f, g)), Add(Row8(f, g), Row9(f, g))));
  }

  /** The columns are worth the product. */
  lemma ColumnsProduct(f: Fe, g: Fe)
    ensures Cong(TenVal(Columns(f, g)), Mul(Val(f), Val(g)))
  {
    hide Mul, Cong, Val, TenVal, Columns, Rows, Row0, Row1, Row2, Row3, Row4, Row5, Row6, Row7, Row8, Row9;
    RowsAreColumns(f, g);
    RowsVal(f, g);
    SpreadLeft(f, g);
    var k0 := RowProduct0(f, g);
    var k1 := RowProduct1(f, g);
    var k2 := RowProduct2(f, g);
    var k3 := RowProduct3(f, g);
    var k4 := RowProduct4(f, g);
    var k5 := RowProduct5(f, g);
    var k6 := RowProduct6(f, g);
    var k7 := RowProduct7(f, g);
    var k8 := RowProduct8(f, g);
    var k9 := RowProduct9(f, g);
    CongBy(TenVal(Columns(f, g)), Mul(Val(f), Val(g)),
      -(k0 + k1 + k2 + k3 + k4 + k5 + k6 + k7 + k8 + k9));
  }

  lemma SpreadLeft(f: Fe, g: Fe)
    ensures Mul(Val(f), Val(g)) == Number(Mul(f.x0, Val(g)), Mul(f.x1, Val(g)), Mul(f.x2, Val(g)), Mul(f.x3, Val(g)),
      Mul(f.x4, Val(g)), Mul(f.x5, Val(g)), Mul(f.x6, Val(g)), Mul(f.x7, Val(g)), Mul(f.x8, Val(g)), Mul(f.x9, Val(g)))
  {
    hide Mul, Number;
    Swap(Val(f), Val(g));
    Spread(Val(g), f);
    Swap(f.x0, Val(g));
    Swap(f.x1, Val(g));
    Swap(f.x2, Val(g));
    Swap(f.x3, Val(g));
    Swap(f.x4, Val(g));
    Swap(f.x5, Val(g));
    Swap(f.x6, Val(g));
    Swap(f.x7, Val(g));
    Swap(f.x8, Val(g));
    Swap(f.x9, Val(g));
  }

  // ----- multiplication -----

  lemma CongTrans(a: int, b: int, c: int)
    requires Cong(a, b) && Cong(b, c)
    ensures Cong(a, c)
  {
    var j :| Differ(a, b, j);
    DifferMeans(a, b, j);
    var k :| Differ(b, c, k);
    DifferMeans(b, c, k);
    CongBy(a, c, j + k);
  }

  /** h = f * g: no 32-bit or 64-bit number overflows, and the result is carried. */
  method FeMul(f: Fe, g: Fe) returns (h: Fe)
    requires MulInput(f) && MulInput(g)
    ensures MulOutput(h) && Cong(Val(h), Val(f) * Val(g))
    ensures Limbs(h) == HighStep(LowStep(Columns(f, g)))
  {
    hide Cong, Carriable, MulInput, MulOutput, Val, Number, Columns, LowStep, HighStep;
    var w := MulColumns(f, g);
    h := CarryProduct(w);
    ColumnsProduct(f, g);
    CongTrans(Val(h), WideVal(w), Mul(Val(f), Val(g)));
  }

  method SixProducts(a0: int32, b0: int32, a1: int32, b1: int32, a2: int32, b2: int32, a3: int32, b3: int32, a4: int32,
      b4: int32, a5: int32, b5: int32)
    returns (h: int64)
    requires -2 * MAX_LIMB <= a0 <= 2 * MAX_LIMB && -19 * MAX_LIMB <= b0 <= 19 * MAX_LIMB
    requires -2 * MAX_LIMB <= a1 <= 2 * MAX_LIMB && -19 * MAX_LIMB <= b1 <= 19 * MAX_LIMB
    requires -2 * MAX_LIMB <= a2 <= 2 * MAX_LIMB && -19 * MAX_LIMB <= b2 <= 19 * MAX_LIMB
    requires -2 * MAX_LIMB <= a3 <= 2 * MAX_LIMB && -19 * MAX_LIMB <= b3 <= 19 * MAX_LIMB
    requires -2 * MAX_LIMB <= a4 <= 2 * MAX_LIMB && -19 * MAX_LIMB <= b4 <= 19 * MAX_LIMB
    requires -2 * MAX_LIMB <= a5 <= 2 * MAX_LIMB && -19 * MAX_LIMB <= b5 <= 19 * MAX_LIMB
    ensures h == Mul(a0, b0) + Mul(a1, b1) + Mul(a2, b2) + Mul(a3, b3) + Mul(a4, b4) + Mul(a5, b5)
    ensures -6 * MAX_PRODUCT <= h <= 6 * MAX_PRODUCT
  {
    hide Mul;
    h := Product(a0, b0);
    var m1 := Product(a1, b1);
    h := h + m1;
    var m2 := Product(a2, b2);
    h := h + m2;
    var m3 := Product(a3, b3);
    h := h + m3;
    var m4 := Product(a4, b4);
    h := h + m4;
    var m5 := Product(a5, b5);
    h := h + m5;
  }

  method FiveProducts(a0: int32, b0: int32, a1: int32, b1: int32, a2: int32, b2: int32, a3: int32, b3: int32,
      a4: int32, b4: int32)
    returns (h: int64)
    requires -2 * MAX_LIMB <= a0 <= 2 * MAX_LIMB && -19 * MAX_LIMB <= b0 <= 19 * MAX_LIMB
    requires -2 * MAX_LIMB <= a1 <= 2 * MAX_LIMB && -19 * MAX_LIMB <= b1 <= 19 * MAX_LIMB
    requires -2 * MAX_LIMB <= a2 <= 2 * MAX_LIMB && -19 * MAX_LIMB <= b2 <= 19 * MAX_LIMB
    requires -2 * MAX_LIMB <= a3 <= 2 * MAX_LIMB && -19 * MAX_LIMB <= b3 <= 19 * MAX_LIMB
    requires -2 * MAX_LIMB <= a4 <= 2 * MAX_LIMB && -19 * MAX_LIMB <= b4 <= 19 * MAX_LIMB
    ensures h == Mul(a0, b0) + Mul(a1, b1) + Mul(a2, b2) + Mul(a3, b3) + Mul(a4, b4)
    ensures -5 * MAX_PRODUCT <= h <= 5 * MAX_PRODUCT
  {
    hide Mul;
    h := Product(a0, b0);
    var m1 := Product(a1, b1);
    h := h + m1;
    var m2 := Product(a2, b2);
    h := h + m2;
    var m3 := Product(a3, b3);
    h := h + m3;
    var m4 := Product(a4, b4);
    h := h + m4;
  }

  // ----- squaring -----

  /** How the products of a pair of limbs in a square relate to those in a product. */
  lemma Pair(a: int, b: int)
    ensures Mul(b, a) == Mul(a, b) && Mul(a, 19 * b) == 19 * Mul(a, b) && Mul(b, 19 * a) == 19 * Mul(a, b)
    ensures Mul(2 * a, b) == 2 * Mul(a, b) && Mul(2 * b, a) == 2 * Mul(a, b) && Mul(2 * a, 2 * b) == 4 * Mul(a, b)
    ensures Mul(2 * a, 19 * b) == 38 * Mul(a, b) && Mul(2 * b, 19 * a) == 38 * Mul(a, b)
    ensures Mul(a, 38 * b) == 38 * Mul(a, b) && Mul(2 * a, 38 * b) == 76 * Mul(a, b)
  {
  }

  lemma Square0(f: Fe)
    ensures Column0(f, f) == Mul(f.x0, f.x0) + Mul(2 * f.x1, 38 * f.x9) + Mul(2 * f.x2, 19 * f.x8)
        + Mul(2 * f.x3, 38 * f.x7) + Mul(2 * f.x4, 19 * f.x6) + Mul(f.x5, 38 * f.x5)
  {
    hide Mul;
    Pair(f.x0, f.x0);
    Pair(f.x1, f.x9);
    Pair(f.x2, f.x8);
    Pair(f.x3, f.x7);
    Pair(f.x4, f.x6);
    Pair(f.x5, f.x5);
  }

  lemma Square1(f: Fe)
    ensures Column1(f, f) == Mul(2 * f.x0, f.x1) + Mul(f.x2, 38 * f.x9) + Mul(2 * f.x3, 19 * f.x8)
        + Mul(f.x4, 38 * f.x7) + Mul(2 * f.x5, 19 * f.x6)
  {
    hide Mul;
    Pair(f.x0, f.x1);
    Pair(f.x2, f.x9);
    Pair(f.x3, f.x8);
    Pair(f.x4, f.x7);
    Pair(f.x5, f.x6);
  }

  lemma Square2(f: Fe)
    ensures Column2(f, f) == Mul(2 * f.x0, f.x2) + Mul(2 * f.x1, f.x1) + Mul(2 * f.x3, 38 * f.x9)
        + Mul(2 * f.x4, 19 * f.x8) + Mul(2 * f.x5, 38 * f.x7) + Mul(f.x6, 19 * f.x6)
  {
    hide Mul;
    Pair(f.x0, f.x2);
    Pair(f.x1, f.x1);
    Pair(f.x3, f.x9);
    Pair(f.x4, f.x8);
    Pair(f.x5, f.x7);
    Pair(f.x6, f.x6);
  }

  lemma Square3(f: Fe)
    ensures Column3(f, f) == Mul(2 * f.x0, f.x3) + Mul(2 * f.x1, f.x2) + Mul(f.x4, 38 * f.x9)
        + Mul(2 * f.x5, 19 * f.x8) + Mul(f.x6, 38 * f.x7)
  {
    hide Mul;
    Pair(f.x0, f.x3);
    Pair(f.x1, f.x2);
    Pair(f.x4, f.x9);
    Pair(f.x5, f.x8);
    Pair(f.x6, f.x7);
  }

  lemma Square4(f: Fe)
    ensures Column4(f, f) == Mul(2 * f.x0, f.x4) + Mul(2 * f.x1, 2 * f.x3) + Mul(f.x2, f.x2)
        + Mul(2 * f.x5, 38 * f.x9) + Mul(2 * f.x6, 19 * f.x8) + Mul(f.x7, 38 * f.x7)
  {
    hide Mul;
    Pair(f.x0, f.x4);
    Pair(f.x1, f.x3);
    Pair(f.x2, f.x2);
    Pair(f.x5, f.x9);
    Pair(f.x6, f.x8);
    Pair(f.x7, f.x7);
  }

  lemma Square5(f: Fe)
    ensures Column5(f, f) == Mul(2 * f.x0, f.x5) + Mul(2 * f.x1, f.x4) + Mul(2 * f.x2, f.x3) + Mul(f.x6, 38 * f.x9)
        + Mul(2 * f.x7, 19 * f.x8)
  {
    hide Mul;
    Pair(f.x0, f.x5);
    Pair(f.x1, f.x4);
    Pair(f.x2, f.x3);
    Pair(f.x6, f.x9);
    Pair(f.x7, f.x8);
  }

  lemma Square6(f: Fe)
    ensures Column6(f, f) == Mul(2 * f.x0, f.x6) + Mul(2 * f.x1, 2 * f.x5) + Mul(2 * f.x2, f.x4)
        + Mul(2 * f.x3, f.x3) + Mul(2 * f.x7, 38 * f.x9) + Mul(f.x8, 19 * f.x8)
  {
    hide Mul;
    Pair(f.x0, f.x6);
    Pair(f.x1, f.x5);
    Pair(f.x2, f.x4);
    Pair(f.x3, f.x3);
    Pair(f.x7, f.x9);
    Pair(f.x8, f.x8);
  }

  lemma Square7(f: Fe)
    ensures Column7(f, f) == Mul(2 * f.x0, f.x7) + Mul(2 * f.x1, f.x6) + Mul(2 * f.x2, f.x5) + Mul(2 * f.x3, f.x4)
        + Mul(f.x8, 38 * f.x9)
  {
    hide Mul;
    Pair(f.x0, f.x7);
    Pair(f.x1, f.x6);
    Pair(f.x2, f.x5);
    Pair(f.x3, f.x4);
    Pair(f.x8, f.x9);
  }

  lemma Square8(f: Fe)
    ensures Column8(f, f) == Mul(2 * f.x0, f.x8) + Mul(2 * f.x1, 2 * f.x7) + Mul(2 * f.x2, f.x6)
        + Mul(2 * f.x3, 2 * f.x5) + Mul(f.x4, f.x4) + Mul(f.x9, 38 * f.x9)
  {
    hide Mul;
    Pair(f.x0, f.x8);
    Pair(f.x1, f.x7);
    Pair(f.x2, f.x6);
    Pair(f.x3, f.x5);
    Pair(f.x4, f.x4);
    Pair(f.x9, f.x9);
  }

  lemma Square9(f: Fe)
    ensures Column9(f, f) == Mul(2 * f.x0, f.x9) + Mul(2 * f.x1, f.x8) + Mul(2 * f.x2, f.x7) + Mul(2 * f.x3, f.x6)
        + Mul(2 * f.x4, f.x5)
  {
    hide Mul;
    Pair(f.x0, f.x9);
    Pair(f.x1, f.x8);
    Pair(f.x2, f.x7);
    Pair(f.x3, f.x6);
    Pair(f.x4, f.x5);
  }

  /** The sums of products of a square: each pair of different limbs once, with twice the factor. */
  method SquareColumns(f: Fe) returns (w: Wide)
    requires MulInput(f)
    ensures WideLimbs(w) == Columns(f, f) && -6 * MAX_PRODUCT <= w.h0 <= 6 * MAX_PRODUCT
    ensures -6 * MAX_PRODUCT <= w.h1 <= 6 * MAX_PRODUCT
    ensures -6 * MAX_PRODUCT <= w.h2 <= 6 * MAX_PRODUCT
    ensures -6 * MAX_PRODUCT <= w.h3 <= 6 * MAX_PRODUCT
    ensures -6 * MAX_PRODUCT <= w.h4 <= 6 * MAX_PRODUCT
    ensures -6 * MAX_PRODUCT <= w.h5 <= 6 * MAX_PRODUCT
    ensures -6 * MAX_PRODUCT <= w.h6 <= 6 * MAX_PRODUCT
    ensures -6 * MAX_PRODUCT <= w.h7 <= 6 * MAX_PRODUCT
    ensures -6 * MAX_PRODUCT <= w.h8 <= 6 * MAX_PRODUCT
    ensures -6 * MAX_PRODUCT <= w.h9 <= 6 * MAX_PRODUCT
  {
    hide Mul, Column0, Column1, Column2, Column3, Column4, Column5, Column6, Column7, Column8, Column9;
    var f0_2: int32 := 2 * f.x0;
    var f1_2: int32 := 2 * f.x1;
    var f2_2: int32 := 2 * f.x2;
    var f3_2: int32 := 2 * f.x3;
    var f4_2: int32 := 2 * f.x4;
    var f5_2: int32 := 2 * f.x5;
    var f6_2: int32 := 2 * f.x6;
    var f7_2: int32 := 2 * f.x7;
    var f5_38: int32 := 38 * f.x5;
    var f6_19: int32 := 19 * f.x6;
    var f7_38: int32 := 38 * f.x7;
    var f8_19: int32 := 19 * f.x8;
    var f9_38: int32 := 38 * f.x9;
    Square0(f);
    var h0 := SixProducts(f.x0, f.x0, f1_2, f9_38, f2_2, f8_19, f3_2, f7_38, f4_2, f6_19, f.x5, f5_38);
    Square1(f);
    var h1 := FiveProducts(f0_2, f.x1, f.x2, f9_38, f3_2, f8_19, f.x4, f7_38, f5_2, f6_19);
    Square2(f);
    var h2 := SixProducts(f0_2, f.x2, f1_2, f.x1, f3_2, f9_38, f4_2, f8_19, f5_2, f7_38, f.x6, f6_19);
    Square3(f);
    var h3 := FiveProducts(f0_2, f.x3, f1_2, f.x2, f.x4, f9_38, f5_2, f8_19, f.x6, f7_38);
    Square4(f);
    var h4 := SixProducts(f0_2, f.x4, f1_2, f3_2, f.x2, f.x2, f5_2, f9_38, f6_2, f8_19, f.x7, f7_38);
    Square5(f);
    var h5 := FiveProducts(f0_2, f.x5, f1_2, f.x4, f2_2, f.x3, f.x6, f9_38, f7_2, f8_19);
    Square6(f);
    var h6 := SixProducts(f0_2, f.x6, f1_2, f5_2, f2_2, f.x4, f3_2, f.x3, f7_2, f9_38, f.x8, f8_19);
    Square7(f);
    var h7 := FiveProducts(f0_2, f.x7, f1_2, f.x6, f2_2, f.x5, f3_2, f.x4, f.x8, f9_38);
    Square8(f);
    var h8 := SixProducts(f0_2, f.x8, f1_2, f7_2, f2_2, f.x6, f3_2, f5_2, f.x4, f.x4, f.x9, f9_38);
    Square9(f);
    var h9 := FiveProducts(f0_2, f.x9, f1_2, f.x8, f2_2, f.x7, f3_2, f.x6, f4_2, f.x5);
    w := Wide(h0, h1, h2, h3, h4, h5, h6, h7, h8, h9);
  }

  /** h = f * f, limb for limb what the multiplication gives. */
  method FeSq(f: Fe) returns (h: Fe)
    requires MulInput(f)
    ensures MulOutput(h) && Cong(Val(h), Val(f) * Val(f))
    ensures Limbs(h) == HighStep(LowStep(Columns(f, f)))
  {
    hide Cong, MulInput, MulOutput, Val, Number, Columns, LowStep, HighStep;
    var w := SquareColumns(f);
    h := CarryProduct(w);
    ColumnsProduct(f, f);
    CongTrans(Val(h), WideVal(w), Mul(Val(f), Val(f)));
  }

  ghost function Twice(t: Ten): Ten {
    Ten(2 * t.h0, 2 * t.h1, 2 * t.h2, 2 * t.h3, 2 * t.h4, 2 * t.h5, 2 * t.h6, 2 * t.h7, 2 * t.h8, 2 * t.h9)
  }

  lemma TwiceCong(t: Ten, b: int)
    requires Cong(TenVal(t), b)
    ensures Cong(TenVal(Twice(t)), 2 * b)
  {
    hide Number;
    var k :| Differ(TenVal(t), b, k);
    DifferMeans(TenVal(t), b, k);
    TwiceVal(t);
    CongBy(TenVal(Twice(t)), 2 * b, 2 * k);
  }

  lemma TwiceVal(t: Ten)
    ensures TenVal(Twice(t)) == 2 * TenVal(t)
  {
  }

  method Double(w: Wide) returns (d: Wide)
    requires -6 * MAX_PRODUCT <= w.h0 <= 6 * MAX_PRODUCT
    requires -6 * MAX_PRODUCT <= w.h1 <= 6 * MAX_PRODUCT
    requires -6 * MAX_PRODUCT <= w.h2 <= 6 * MAX_PRODUCT
    requires -6 * MAX_PRODUCT <= w.h3 <= 6 * MAX_PRODUCT
    requires -6 * MAX_PRODUCT <= w.h4 <= 6 * MAX_PRODUCT
    requires -6 * MAX_PRODUCT <= w.h5 <= 6 * MAX_PRODUCT
    requires -6 * MAX_PRODUCT <= w.h6 <= 6 * MAX_PRODUCT
    requires -6 * MAX_PRODUCT <= w.h7 <= 6 * MAX_PRODUCT
    requires -6 * MAX_PRODUCT <= w.h8 <= 6 * MAX_PRODUCT
    requires -6 * MAX_PRODUCT <= w.h9 <= 6 * MAX_PRODUCT
    ensures Carriable(d) && WideLimbs(d) == Twice(WideLimbs(w))
  {
    d := Wide(w.h0 + w.h0, w.h1 + w.h1, w.h2 + w.h2, w.h3 + w.h3, w.h4 + w.h4, w.h5 + w.h5, w.h6 + w.h6, w.h7 + w.h7,
      w.h8 + w.h8,
      w.h9 + w.h9);
  }

  /** h = 2 * f * f */
  method FeSq2(f: Fe) returns (h: Fe)
    requires MulInput(f)
    ensures MulOutput(h) && Cong(Val(h), 2 * (Val(f) * Val(f)))
  {
    hide Cong, MulInput, MulOutput, Val, Number, Columns, LowStep, HighStep, Twice;
    var w := SquareColumns(f);
    var d := Double(w);
    h := CarryProduct(d);
    ColumnsProduct(f, f);
    TwiceCong(Columns(f, f), Mul(Val(f), Val(f)));
    CongTrans(Val(h), WideVal(d), 2 * Mul(Val(f), Val(f)));
  }
}
