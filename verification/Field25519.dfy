/** Numbers modulo 2^255 - 19, in ten signed limbs of alternately 26 and 25 bits. */
module Field25519 {

  type int32 = x: int | -0x8000_0000 <= x < 0x8000_0000
  type int64 = x: int | -0x8000_0000_0000_0000 <= x < 0x8000_0000_0000_0000

  const TWO25: int := 0x200_0000
  const TWO26: int := 0x400_0000
  const P: int := 0x7FFF_FFFF_FFFF_FFFF_FFFF_FFFF_FFFF_FFFF_FFFF_FFFF_FFFF_FFFF_FFFF_FFFF_FFFF_FFED

  datatype Fe = Fe(x0: int32, x1: int32, x2: int32, x3: int32, x4: int32, x5: int32, x6: int32, x7: int32, x8: int32,
    x9: int32)

  /** Ten limbs before they are carried. */
  datatype Wide = Wide(h0: int64, h1: int64, h2: int64, h3: int64, h4: int64, h5: int64, h6: int64, h7: int64,
    h8: int64, h9: int64)

  /** The number that ten limbs stand for; limb i weighs 2^ceil(25.5 i). */
  function Number(h0: int, h1: int, h2: int, h3: int, h4: int, h5: int, h6: int, h7: int, h8: int, h9: int): int {
    h0 + TWO26 * (h1 + TWO25 * (h2 + TWO26 * (h3 + TWO25 * (h4
      + TWO26 * (h5 + TWO25 * (h6 + TWO26 * (h7 + TWO25 * (h8 + TWO26 * h9))))))))
  }

  /** Ten limbs of any size. */
  datatype Ten = Ten(h0: int, h1: int, h2: int, h3: int, h4: int, h5: int, h6: int, h7: int, h8: int, h9: int)

  function Limbs(f: Fe): Ten {
    Ten(f.x0, f.x1, f.x2, f.x3, f.x4, f.x5, f.x6, f.x7, f.x8, f.x9)
  }

  function WideLimbs(h: Wide): Ten {
    Ten(h.h0, h.h1, h.h2, h.h3, h.h4, h.h5, h.h6, h.h7, h.h8, h.h9)
  }

  function Val(f: Fe): int {
    Number(f.x0, f.x1, f.x2, f.x3, f.x4, f.x5, f.x6, f.x7, f.x8, f.x9)
  }

  function WideVal(h: Wide): int {
    Number(h.h0, h.h1, h.h2, h.h3, h.h4, h.h5, h.h6, h.h7, h.h8, h.h9)
  }

  /** a and b are equal modulo p. */
  ghost predicate Cong(a: int, b: int) {
    exists k :: Differ(a, b, k)
  }

  /** a and b differ by k times p. */
  ghost predicate Differ(a: int, b: int, k: int)
    decreases if k < 0 then -k else k
  {
    if k == 0 then a == b else if k > 0 then Differ(a - P, b, k - 1) else Differ(a + P, b, k + 1)
  }

  lemma {:induction false} DifferMeans(a: int, b: int, k: int)
    ensures Differ(a, b, k) <==> a == b + P * k
    decreases if k < 0 then -k else k
  {
    if k > 0 {
      DifferMeans(a - P, b, k - 1);
    } else if k < 0 {
      DifferMeans(a + P, b, k + 1);
    }
  }

  /** Even limbs are at most e in absolute value, odd limbs at most o. */
  predicate Within(f: Fe, e: int, o: int) {
    && -e <= f.x0 <= e && -o <= f.x1 <= o && -e <= f.x2 <= e && -o <= f.x3 <= o && -e <= f.x4 <= e
    && -o <= f.x5 <= o && -e <= f.x6 <= e && -o <= f.x7 <= o && -e <= f.x8 <= e && -o <= f.x9 <= o
  }

  /** 1.65 * 2^26 and 1.65 * 2^25. */
  predicate MulInput(f: Fe) {
    Within(f, 110729625, 55364812)
  }

  /** 1.01 * 2^25 and 1.01 * 2^24. */
  predicate MulOutput(f: Fe) {
    Within(f, 33889976, 16944988)
  }

  // ----- carries -----

  /** What carries out of a 26-bit limb, rounding to nearest. */
  function Round26(h: int): (c: int)
    ensures -TWO25 <= h - TWO26 * c < TWO25
  {
    (h + 0x200_0000) / 0x400_0000
  }

  /** What carries out of a 25-bit limb, rounding to nearest. */
  function Round25(h: int): (c: int)
    ensures -0x100_0000 <= h - TWO25 * c < 0x100_0000
  {
    (h + 0x100_0000) / 0x200_0000
  }

  function Carry26(h: int64): (c: int64)
    requires h + 0x200_0000 < 0x8000_0000_0000_0000
  {
    Round26(h)
  }

  function Carry25(h: int64): (c: int64)
    requires h + 0x100_0000 < 0x8000_0000_0000_0000
  {
    Round25(h)
  }

  /** Room for twice the sum of six products of operand limbs. */
  const LIMIT: int := 0x4E00_0000_0000_0000

  predicate Carriable(h: Wide) {
    && -LIMIT <= h.h0 <= LIMIT && -LIMIT <= h.h1 <= LIMIT && -LIMIT <= h.h2 <= LIMIT && -LIMIT <= h.h3 <= LIMIT
    && -LIMIT <= h.h4 <= LIMIT && -LIMIT <= h.h5 <= LIMIT && -LIMIT <= h.h6 <= LIMIT && -LIMIT <= h.h7 <= LIMIT
    && -LIMIT <= h.h8 <= LIMIT && -LIMIT <= h.h9 <= LIMIT
  }

  lemma CongBy(a: int, b: int, k: int)
    requires a == b + P * k
    ensures Cong(a, b)
  {
    DifferMeans(a, b, k);
    assert Differ(a, b, k);
  }

  /** The first six carries. */
  ghost function LowStep(w: Ten): Ten {
    var c0, c4 := Round26(w.h0), Round26(w.h4);
    var c1, c5 := Round25(w.h1 + c0), Round25(w.h5 + c4);
    var c2, c6 := Round26(w.h2 + c1), Round26(w.h6 + c5);
    Ten(w.h0 - TWO26 * c0, w.h1 + c0 - TWO25 * c1, w.h2 + c1 - TWO26 * c2, w.h3 + c2, w.h4 - TWO26 * c4,
      w.h5 + c4 - TWO25 * c5, w.h6 + c5 - TWO26 * c6, w.h7 + c6, w.h8, w.h9)
  }

  /** The other six carries. */
  ghost function HighStep(v: Ten): Ten {
    var c3, c7 := Round25(v.h3), Round25(v.h7);
    var c4, c8 := Round26(v.h4 + c3), Round26(v.h8 + c7);
    var c9 := Round25(v.h9 + c8);
    var c0 := Round26(v.h0 + c9 * 19);
    Ten(v.h0 + c9 * 19 - TWO26 * c0, v.h1 + c0, v.h2, v.h3 - TWO25 * c3, v.h4 + c3 - TWO26 * c4, v.h5 + c4, v.h6,
      v.h7 - TWO25 * c7, v.h8 + c7 - TWO26 * c8, v.h9 + c8 - TWO25 * c9)
  }

  function TenVal(t: Ten): int {
    Number(t.h0, t.h1, t.h2, t.h3, t.h4, t.h5, t.h6, t.h7, t.h8, t.h9)
  }

  lemma LowValue(w: Ten)
    ensures TenVal(LowStep(w)) == TenVal(w)
  {
    hide Round26, Round25;
  }

  lemma HighValue(v: Ten)
    ensures Cong(TenVal(HighStep(v)), TenVal(v))
  {
    hide Round26, Round25, Cong;
    var c9 := Round25(v.h9 + Round26(v.h8 + Round25(v.h7)));
    CongBy(TenVal(HighStep(v)), TenVal(v), -c9);
  }

  /** Limbs 0 to 2 and 4 to 6 are small; 3 and 7 have taken in a carry. */
  predicate LowCarried(h: Wide) {
    && -TWO25 <= h.h0 < TWO25 && -0x100_0000 <= h.h1 < 0x100_0000 && -TWO25 <= h.h2 < TWO25
    && -LIMIT - 0x100_0000_0000 <= h.h3 <= LIMIT + 0x100_0000_0000
    && -TWO25 <= h.h4 < TWO25 && -0x100_0000 <= h.h5 < 0x100_0000 && -TWO25 <= h.h6 < TWO25
    && -LIMIT - 0x100_0000_0000 <= h.h7 <= LIMIT + 0x100_0000_0000
    && -LIMIT <= h.h8 <= LIMIT && -LIMIT <= h.h9 <= LIMIT
  }

  /** The first six carries, rippling up from limbs 0 and 4 in turn. */
  method CarryLow(w: Wide) returns (v: Wide)
    requires Carriable(w)
    ensures LowCarried(v)
    ensures WideLimbs(v) == LowStep(WideLimbs(w))
  {
    hide Round26, Round25;
    var h0, h1, h2, h3, h4, h5, h6, h7: int64 := w.h0, w.h1, w.h2, w.h3, w.h4, w.h5, w.h6, w.h7;
    var carry0: int64 := Carry26(h0);
    h1 := h1 + carry0;
    h0 := h0 - TWO26 * carry0;
    var carry4: int64 := Carry26(h4);
    h5 := h5 + carry4;
    h4 := h4 - TWO26 * carry4;
    var carry1: int64 := Carry25(h1);
    h2 := h2 + carry1;
    h1 := h1 - TWO25 * carry1;
    var carry5: int64 := Carry25(h5);
    h6 := h6 + carry5;
    h5 := h5 - TWO25 * carry5;
    var carry2: int64 := Carry26(h2);
    h3 := h3 + carry2;
    h2 := h2 - TWO26 * carry2;
    var carry6: int64 := Carry26(h6);
    h7 := h7 + carry6;
    h6 := h6 - TWO26 * carry6;
    v := Wide(h0, h1, h2, h3, h4, h5, h6, h7, w.h8, w.h9);
  }

  /** The other six carries; what leaves limb 9 comes back at limb 0, nineteen times. */
  method CarryHigh(v: Wide) returns (h: Fe)
    requires LowCarried(v)
    ensures MulOutput(h)
    ensures Limbs(h) == HighStep(WideLimbs(v))
  {
    hide Round26, Round25;
    var h0, h1, h3, h4, h5, h7, h8, h9: int64 := v.h0, v.h1, v.h3, v.h4, v.h5, v.h7, v.h8, v.h9;
    var carry3: int64 := Carry25(h3);
    h4 := h4 + carry3;
    h3 := h3 - TWO25 * carry3;
    var carry7: int64 := Carry25(h7);
    h8 := h8 + carry7;
    h7 := h7 - TWO25 * carry7;
    var carry4: int64 := Carry26(h4);
    h5 := h5 + carry4;
    h4 := h4 - TWO26 * carry4;
    var carry8: int64 := Carry26(h8);
    h9 := h9 + carry8;
    h8 := h8 - TWO26 * carry8;
    var carry9: int64 := Carry25(h9);
    h0 := h0 + carry9 * 19;
    h9 := h9 - TWO25 * carry9;
    var carry0: int64 := Carry26(h0);
    h1 := h1 + carry0;
    h0 := h0 - TWO26 * carry0;
    h := Fe(h0, h1, v.h2, h3, h4, h5, v.h6, h7, h8, h9);
  }

  /** The carry chain that multiplication and both squarings end with. */
  method CarryProduct(w: Wide) returns (h: Fe)
    requires Carriable(w)
    ensures Cong(Val(h), WideVal(w)) && MulOutput(h)
    ensures Limbs(h) == HighStep(LowStep(WideLimbs(w)))
  {
    hide Number, LowStep, HighStep, Cong, Carriable, LowCarried, MulOutput;
    var v := CarryLow(w);
    h := CarryHigh(v);
    LowValue(WideLimbs(w));
    HighValue(WideLimbs(v));
  }

  // ----- the other carry chain: odd limbs, then even limbs -----

  /** 1.1 * 2^25 and 1.1 * 2^24. */
  predicate Reduced(f: Fe) {
    Within(f, 36909875, 18454937)
  }

  const SMALL: int := 0x1000_0000_0000

  predicate SmallWide(h: Wide) {
    && -SMALL <= h.h0 <= SMALL && -SMALL <= h.h1 <= SMALL && -SMALL <= h.h2 <= SMALL && -SMALL <= h.h3 <= SMALL
    && -SMALL <= h.h4 <= SMALL && -SMALL <= h.h5 <= SMALL && -SMALL <= h.h6 <= SMALL && -SMALL <= h.h7 <= SMALL
    && -SMALL <= h.h8 <= SMALL && -SMALL <= h.h9 <= SMALL
  }

  /** Odd limbs are of 25 bits, even ones have taken in a carry. */
  predicate OddCarried(h: Wide) {
    && -2 * SMALL <= h.h0 <= 2 * SMALL && -0x100_0000 <= h.h1 < 0x100_0000 && -2 * SMALL <= h.h2 <= 2 * SMALL
    && -0x100_0000 <= h.h3 < 0x100_0000 && -2 * SMALL <= h.h4 <= 2 * SMALL && -0x100_0000 <= h.h5 < 0x100_0000
    && -2 * SMALL <= h.h6 <= 2 * SMALL && -0x100_0000 <= h.h7 < 0x100_0000 && -2 * SMALL <= h.h8 <= 2 * SMALL
    && -0x100_0000 <= h.h9 < 0x100_0000
  }

  /** v is w with the carries c out of the odd limbs taken along. */
  lemma OddValue(w: Wide, v: Wide, c1: int, c3: int, c5: int, c7: int, c9: int)
    requires v.h0 == w.h0 + 19 * c9 && v.h1 == w.h1 - TWO25 * c1 && v.h2 == w.h2 + c1 && v.h3 == w.h3 - TWO25 * c3
    requires v.h4 == w.h4 + c3 && v.h5 == w.h5 - TWO25 * c5 && v.h6 == w.h6 + c5 && v.h7 == w.h7 - TWO25 * c7
    requires v.h8 == w.h8 + c7 && v.h9 == w.h9 - TWO25 * c9
    ensures Cong(WideVal(v), WideVal(w))
  {
    hide Cong;
    CongBy(WideVal(v), WideVal(w), -c9);
  }

  method CarryOdd(w: Wide) returns (v: Wide)
    requires SmallWide(w)
    ensures OddCarried(v) && Cong(WideVal(v), WideVal(w))
  {
    hide Round25, Cong, Number;
    var carry9: int64 := Carry25(w.h9);
    var h0: int64 := w.h0 + carry9 * 19;
    var h9: int64 := w.h9 - TWO25 * carry9;
    var carry1: int64 := Carry25(w.h1);
    var h2: int64 := w.h2 + carry1;
    var h1: int64 := w.h1 - TWO25 * carry1;
    var carry3: int64 := Carry25(w.h3);
    var h4: int64 := w.h4 + carry3;
    var h3: int64 := w.h3 - TWO25 * carry3;
    var carry5: int64 := Carry25(w.h5);
    var h6: int64 := w.h6 + carry5;
    var h5: int64 := w.h5 - TWO25 * carry5;
    var carry7: int64 := Carry25(w.h7);
    var h8: int64 := w.h8 + carry7;
    var h7: int64 := w.h7 - TWO25 * carry7;
    v := Wide(h0, h1, h2, h3, h4, h5, h6, h7, h8, h9);
    OddValue(w, v, carry1, carry3, carry5, carry7, carry9);
  }

  method CarryEven(w: Wide) returns (r: Fe)
    requires OddCarried(w)
    ensures Reduced(r) && Val(r) == WideVal(w)
  {
    hide Round26;
    var carry0: int64 := Carry26(w.h0);
    var h1: int64 := w.h1 + carry0;
    var h0: int64 := w.h0 - TWO26 * carry0;
    var carry2: int64 := Carry26(w.h2);
    var h3: int64 := w.h3 + carry2;
    var h2: int64 := w.h2 - TWO26 * carry2;
    var carry4: int64 := Carry26(w.h4);
    var h5: int64 := w.h5 + carry4;
    var h4: int64 := w.h4 - TWO26 * carry4;
    var carry6: int64 := Carry26(w.h6);
    var h7: int64 := w.h7 + carry6;
    var h6: int64 := w.h6 - TWO26 * carry6;
    var carry8: int64 := Carry26(w.h8);
    var h9: int64 := w.h9 + carry8;
    var h8: int64 := w.h8 - TWO26 * carry8;
    r := Fe(h0, h1, h2, h3, h4, h5, h6, h7, h8, h9);
  }

  /** The carry chain that reading bytes and multiplying by a constant end with. */
  method CarryOddEven(w: Wide) returns (h: Fe)
    requires SmallWide(w)
    ensures Reduced(h) && Cong(Val(h), WideVal(w))
  {
    hide Number, Cong, SmallWide, OddCarried, Reduced;
    var v := CarryOdd(w);
    h := CarryEven(v);
  }
}
