/** Field elements as 32 little-endian bytes: the canonical representative, and back. */
module FieldBytes {
  import opened MachineInts
  import opened Arith
  import D = Digits
  import opened Field25519

  // ----- the canonical limbs -----

  /** What carries out of a 26-bit limb, rounding down. */
  function Floor26(h: int): (c: int)
    ensures 0 <= h - TWO26 * c < TWO26
  {
    h / 0x400_0000
  }

  /** What carries out of a 25-bit limb, rounding down. */
  function Floor25(h: int): (c: int)
    ensures 0 <= h - TWO25 * c < TWO25
  {
    h / 0x200_0000
  }

  /** 1.1 * 2^26 and 1.1 * 2^25 */
  predicate ByteInput(f: Fe) {
    Within(f, 73819750, 36909875)
  }

  /** c carries out of x + q, which leaves a limb of 26 bits. */
  predicate Leaves26(x: int, q: int, c: int) {
    0 <= x + q - TWO26 * c < TWO26
  }

  /** c carries out of x + q, which leaves a limb of 25 bits. */
  predicate Leaves25(x: int, q: int, c: int) {
    0 <= x + q - TWO25 * c < TWO25
  }

  /** (x + q) >> 26 */
  function Out26(x: int32, q: int32): (c: int32)
    requires -73819750 <= x <= 73819750 && -80 <= q <= 80
    ensures Leaves26(x, q, c) && -4 <= c <= 4
  {
    var e: int32 := x + q;
    Floor26(e)
  }

  /** (x + q) >> 25 */
  function Out25(x: int32, q: int32): (c: int32)
    requires -36909875 <= x <= 36909875 && -80 <= q <= 80
    ensures Leaves25(x, q, c) && -4 <= c <= 4
  {
    var e: int32 := x + q;
    Floor25(e)
  }

  /** (19 x + 2^24) >> 25 */
  function Estimate(x: int32): (c: int32)
    requires -36909875 <= x <= 36909875
    ensures Leaves25(19 * x, 0x100_0000, c) && -80 <= c <= 80
  {
    var e: int32 := 19 * x + 0x100_0000;
    Floor25(e)
  }

  /** How often p must be subtracted: the carry out of the limbs, after adding nineteen times the
      estimate h9 / 2^25 of the result, rounded. */
  method Quotient(h: Fe) returns (q: int32)
    requires ByteInput(h)
    ensures -4 <= q <= 4 && 0 <= Val(h) - P * q < P
  {
    hide Floor25, Out25, Out26, Val, Leaves25, Leaves26;
    q := Estimate(h.x9);
    ghost var q0 := q;
    q := Out26(h.x0, q);
    ghost var q1 := q;
    q := Out25(h.x1, q);
    ghost var q2 := q;
    q := Out26(h.x2, q);
    ghost var q3 := q;
    q := Out25(h.x3, q);
    ghost var q4 := q;
    q := Out26(h.x4, q);
    ghost var q5 := q;
    q := Out25(h.x5, q);
    ghost var q6 := q;
    q := Out26(h.x6, q);
    ghost var q7 := q;
    q := Out25(h.x7, q);
    ghost var q8 := q;
    q := Out26(h.x8, q);
    ghost var q9 := q;
    q := Out25(h.x9, q);
    QuotientOf(h, q0, q1, q2, q3, q4, q5, q6, q7, q8, q9, q);
  }

  lemma QuotientOf(h: Fe, q0: int, q1: int, q2: int, q3: int, q4: int, q5: int, q6: int, q7: int, q8: int,
      q9: int, q: int)
    requires ByteInput(h) && Leaves25(19 * h.x9, 0x100_0000, q0) && Leaves26(h.x0, q0, q1)
    requires Leaves25(h.x1, q1, q2) && Leaves26(h.x2, q2, q3) && Leaves25(h.x3, q3, q4)
    requires Leaves26(h.x4, q4, q5) && Leaves25(h.x5, q5, q6) && Leaves26(h.x6, q6, q7)
    requires Leaves25(h.x7, q7, q8) && Leaves26(h.x8, q8, q9) && Leaves25(h.x9, q9, q)
    ensures 0 <= Val(h) - P * q < P
  {
    hide Val, Number;
    Telescope(h, q0, q1, q2, q3, q4, q5, q6, q7, q8, q9, q);
    CanonicalNumber(h.x0 + q0 - TWO26 * q1, h.x1 + q1 - TWO25 * q2, h.x2 + q2 - TWO26 * q3, h.x3 + q3 - TWO25 * q4,
      h.x4 + q4 - TWO26 * q5, h.x5 + q5 - TWO25 * q6, h.x6 + q6 - TWO26 * q7, h.x7 + q7 - TWO25 * q8,
      h.x8 + q8 - TWO26 * q9,
      h.x9 + q9 - TWO25 * q);
    TopLimb(h);
    QuotientExact(h.x9, Val(h) - TWO230 * h.x9, q0, q);
  }

  lemma TopLimb(h: Fe)
    requires ByteInput(h)
    ensures -2 * TWO230 < Val(h) - TWO230 * h.x9 < 2 * TWO230
  {
  }

  lemma CanonicalNumber(h0: int, h1: int, h2: int, h3: int, h4: int, h5: int, h6: int, h7: int, h8: int, h9: int)
    requires 0 <= h0 < TWO26 && 0 <= h1 < TWO25 && 0 <= h2 < TWO26 && 0 <= h3 < TWO25 && 0 <= h4 < TWO26
    requires 0 <= h5 < TWO25 && 0 <= h6 < TWO26 && 0 <= h7 < TWO25 && 0 <= h8 < TWO26 && 0 <= h9 < TWO25
    ensures 0 <= Number(h0, h1, h2, h3, h4, h5, h6, h7, h8, h9) < TWO255
  {
  }

  const TWO230: int := 0x40_0000_0000_0000_0000_0000_0000_0000_0000_0000_0000_0000_0000_0000_0000
  const TWO255: int := 0x8000_0000_0000_0000_0000_0000_0000_0000_0000_0000_0000_0000_0000_0000_0000_0000

  /** Rounding h9 + rest in two steps gives the exact quotient by p. */
  lemma QuotientExact(h9: int, rest: int, q0: int, q: int)
    requires 0 <= 19 * h9 + 0x100_0000 - TWO25 * q0 < TWO25
    requires 0 <= TWO230 * h9 + rest + q0 - TWO255 * q < TWO255
    requires -2 * TWO230 < rest < 2 * TWO230 && -36909875 <= h9 <= 36909875
    ensures 0 <= TWO230 * h9 + rest - P * q < P
  {
    var r := TWO230 * h9 + rest + q0 - TWO255 * q;
    var d := q0 - 19 * q;
    var e := 19 * h9 + 0x100_0000 - TWO25 * q0;
    assert TWO255 * d == 19 * r - 19 * rest - 19 * q0 + TWO255 / 2 - TWO230 * e;
    assert 0 <= d <= 19;
    assert TWO230 * h9 + rest - P * q == r - d;
  }

  predicate CanonicalLimbs(f: Fe) {
    && 0 <= f.x0 < TWO26 && 0 <= f.x1 < TWO25 && 0 <= f.x2 < TWO26 && 0 <= f.x3 < TWO25 && 0 <= f.x4 < TWO26
    && 0 <= f.x5 < TWO25 && 0 <= f.x6 < TWO26 && 0 <= f.x7 < TWO25 && 0 <= f.x8 < TWO26 && 0 <= f.x9 < TWO25
  }

  /** Takes in a carry and passes one on, for a 26-bit limb. */
  method Step26(x: int32, carry: int32) returns (limb: int32, c: int32)
    requires -73819750 <= x <= 73819750 && -80 <= carry <= 80
    ensures limb == x + carry - TWO26 * c && 0 <= limb < TWO26 && -2 <= c <= 2
  {
    hide Floor26;
    var h: int32 := x + carry;
    c := Floor26(h);
    limb := h - TWO26 * c;
  }

  /** The same for a 25-bit limb. */
  method Step25(x: int32, carry: int32) returns (limb: int32, c: int32)
    requires -36909875 <= x <= 36909875 && -80 <= carry <= 80
    ensures limb == x + carry - TWO25 * c && 0 <= limb < TWO25 && -2 <= c <= 2
  {
    hide Floor25;
    var h: int32 := x + carry;
    c := Floor25(h);
    limb := h - TWO25 * c;
  }

  /** Adds 19 q and carries all the way; what leaves limb 9 is dropped. */
  method Propagate(h: Fe, q: int32) returns (r: Fe, ghost c: int)
    requires ByteInput(h) && -4 <= q <= 4
    ensures CanonicalLimbs(r) && Val(r) == Val(h) + 19 * q - TWO255 * c
  {
    hide Number;
    var h0, carry0 := Step26(h.x0, 19 * q);
    var h1, carry1 := Step25(h.x1, carry0);
    var h2, carry2 := Step26(h.x2, carry1);
    var h3, carry3 := Step25(h.x3, carry2);
    var h4, carry4 := Step26(h.x4, carry3);
    var h5, carry5 := Step25(h.x5, carry4);
    var h6, carry6 := Step26(h.x6, carry5);
    var h7, carry7 := Step25(h.x7, carry6);
    var h8, carry8 := Step26(h.x8, carry7);
    var h9, carry9 := Step25(h.x9, carry8);
    r := Fe(h0, h1, h2, h3, h4, h5, h6, h7, h8, h9);
    c := carry9;
    Telescope(h, 19 * q, carry0, carry1, carry2, carry3, carry4, carry5, carry6, carry7, carry8, carry9);
  }

  /** Moving carries from limb to limb changes the number only by what enters and leaves. */
  lemma Telescope(h: Fe, a: int, c0: int, c1: int, c2: int, c3: int, c4: int, c5: int, c6: int, c7: int, c8: int,
      c9: int)
    ensures Number(h.x0 + a - TWO26 * c0, h.x1 + c0 - TWO25 * c1, h.x2 + c1 - TWO26 * c2, h.x3 + c2 - TWO25 * c3,
      h.x4 + c3 - TWO26 * c4, h.x5 + c4 - TWO25 * c5, h.x6 + c5 - TWO26 * c6, h.x7 + c6 - TWO25 * c7,
      h.x8 + c7 - TWO26 * c8,
      h.x9 + c8 - TWO25 * c9) == Val(h) + a - TWO255 * c9
  {
  }

  /** Subtracts q p by adding 19 q and dropping 2^255 q. */
  method Reduce(h: Fe, q: int32) returns (r: Fe)
    requires ByteInput(h) && -4 <= q <= 4 && 0 <= Val(h) - P * q < P
    ensures CanonicalLimbs(r) && Val(r) == Val(h) - P * q
  {
    hide Val, ByteInput, CanonicalLimbs;
    ghost var c;
    r, c := Propagate(h, q);
    CanonicalRange(r);
    assert c == q;
  }

  lemma CanonicalRange(f: Fe)
    requires CanonicalLimbs(f)
    ensures 0 <= Val(f) < TWO255
  {
    hide Number;
    CanonicalNumber(f.x0, f.x1, f.x2, f.x3, f.x4, f.x5, f.x6, f.x7, f.x8, f.x9);
  }

  // ----- the bytes of canonical limbs -----

  /** (unsigned char) (x >> n), where d is 2^n. */
  function Byte(x: int, d: nat): uint8
    requires d > 0
  {
    x / d % 0x100
  }

  /** (unsigned char) (x >> n | y << k), where d is 2^n and m is 2^k; no bit is in both, so that adding is
      the same as or-ing. */
  function Shared(x: int, d: nat, y: int, m: nat): uint8
    requires d > 0
  {
    (x / d + y * m) % 0x100
  }

  function High(x: int, d: nat): int
    requires d > 0
  {
    x / d
  }

  function Low(x: int, m: nat): int
    requires m > 0
  {
    x % m
  }

  lemma DivDiv(h: nat, a: nat, b: nat)
    requires a > 0 && b > 0
    ensures a * b > 0 && h / a / b == h / (a * b)
  {
    var q := h / a / b;
    var r := h % a + a * (h / a % b);
    MulMonotone(a, h / a % b, b - 1);
    assert h == a * (h / a) + h % a && h / a == b * q + h / a % b;
    assert a * (b * q) == (a * b) * q;
    MulMonotone(a, 1, b);
    ModUnique(h, a * b, q, r);
  }

  /** The low part of a limb, two whole bytes of it, and what is left. */
  lemma Pieces(h: nat, a: nat)
    requires a > 0
    ensures h == Low(h, a) + a * (Byte(h, a) as int) + a * (0x100 * Byte(h, a * 0x100) as int)
        + a * (0x1_0000 * High(h, a * 0x1_0000))
  {
    hide Byte, Low, High;
    var x := High(h, a);
    DivideOnce(h, a);
    DivideTwice(h, a, 0x100);
    DivideTwice(h, a, 0x1_0000);
    ThreeBytes(x);
    Distribute3(a, Byte(h, a), 0x100 * Byte(h, a * 0x100) as int, 0x1_0000 * High(h, a * 0x1_0000));
  }

  lemma DivideOnce(h: nat, a: nat)
    requires a > 0
    ensures h == Low(h, a) + a * High(h, a) && Byte(h, a) == Byte(High(h, a), 1) && High(h, a) >= 0
  {
  }

  lemma DivideTwice(h: nat, a: nat, b: nat)
    requires a > 0 && b > 0
    ensures a * b > 0 && High(h, a * b) == High(High(h, a), b) && Byte(h, a * b) == Byte(High(h, a), b)
  {
    DivDiv(h, a, b);
  }

  lemma ThreeBytes(x: nat)
    ensures x == Byte(x, 1) as int + 0x100 * (Byte(x, 0x100) as int) + 0x1_0000 * High(x, 0x1_0000)
  {
  }

  lemma Distribute3(a: int, x: int, y: int, z: int)
    ensures a * (x + y + z) == a * x + a * y + a * z
  {
  }

  /** The limbs cut at byte boundaries. */
  function Cut(h: Fe): (s: seq<uint8>)
    ensures |s| == 32
  {
    [
      Byte(h.x0, 1), Byte(h.x0, 0x100), Byte(h.x0, 0x10000), Shared(h.x0, 0x1000000, h.x1, 4),
      Byte(h.x1, 0x40), Byte(h.x1, 0x4000), Shared(h.x1, 0x400000, h.x2, 8), Byte(h.x2, 0x20),
      Byte(h.x2, 0x2000), Shared(h.x2, 0x200000, h.x3, 32), Byte(h.x3, 0x8), Byte(h.x3, 0x800),
      Shared(h.x3, 0x80000, h.x4, 64), Byte(h.x4, 0x4), Byte(h.x4, 0x400), Byte(h.x4, 0x40000),
      Byte(h.x5, 1), Byte(h.x5, 0x100), Byte(h.x5, 0x10000), Shared(h.x5, 0x1000000, h.x6, 2),
      Byte(h.x6, 0x80), Byte(h.x6, 0x8000), Shared(h.x6, 0x800000, h.x7, 8), Byte(h.x7, 0x20),
      Byte(h.x7, 0x2000), Shared(h.x7, 0x200000, h.x8, 16), Byte(h.x8, 0x10), Byte(h.x8, 0x1000),
      Shared(h.x8, 0x100000, h.x9, 64), Byte(h.x9, 0x4), Byte(h.x9, 0x400), Byte(h.x9, 0x40000)
    ]
  }

  /** Eight bytes as a number. */
  function Word(s: seq<uint8>, i: nat): int
    requires i + 8 <= |s|
  {
    s[i] + 0x100 * s[i + 1] as int + 0x1_0000 * s[i + 2] as int + 0x100_0000 * s[i + 3] as int
      + 0x1_0000_0000 * s[i + 4] as int
    + 0x100_0000_0000 * s[i + 5] as int + 0x1_0000_0000_0000 * s[i + 6] as int + 0x100_0000_0000_0000 * s[i + 7] as int
  }

  lemma TakeWord(s: seq<uint8>)
    requires |s| >= 8
    ensures D.Value(s) == Word(s, 0) + 0x1_0000_0000_0000_0000 * D.Value(s[8..])
  {
    TakeFour(s);
    TakeFour(s[4..]);
    assert s[4..][4..] == s[8..];
  }

  lemma TakeFour(s: seq<uint8>)
    requires |s| >= 4
    ensures D.Value(s) == s[0] + 0x100 * s[1] as int + 0x1_0000 * s[2] as int + 0x100_0000 * s[3] as int
      + 0x1_0000_0000 * D.Value(s[4..])
  {
    var t := s[1..];
    var u := t[1..];
    var v := u[1..];
    assert v[1..] == s[4..];
    assert D.Value(s) == s[0] + 256 * D.Value(t);
    assert D.Value(t) == s[1] + 256 * D.Value(u);
    assert D.Value(u) == s[2] + 256 * D.Value(v);
    assert D.Value(v) == s[3] + 256 * D.Value(s[4..]);
  }

  lemma WordShift(s: seq<uint8>, i: nat)
    requires i + 8 <= |s|
    ensures Word(s[i..], 0) == Word(s, i)
  {
  }

  lemma NoBytes()
    ensures D.Value([]) == 0
  {
  }

  /** 32 bytes as four words. */
  lemma FourWords(s: seq<uint8>)
    requires |s| == 32
    ensures D.Value(s) == Word(s, 0) + 0x1_0000_0000_0000_0000 * (Word(s, 8) + 0x1_0000_0000_0000_0000 * (Word(s, 16)
      + 0x1_0000_0000_0000_0000 * Word(s, 24)))
  {
    hide Word, D.Value;
    TakeWord(s);
    TakeWord(s[8..]);
    assert s[8..][8..] == s[16..];
    TakeWord(s[16..]);
    assert s[16..][8..] == s[24..];
    TakeWord(s[24..]);
    assert s[24..][8..] == [];
    WordShift(s, 8);
    WordShift(s, 16);
    WordShift(s, 24);
    NoBytes();
  }

  lemma CutWord0(h: Fe)
    ensures Word(Cut(h), 0) == Byte(h.x0, 1) + 0x100 * Byte(h.x0, 0x100) as int + 0x1_0000 * Byte(h.x0, 0x10000) as int
      + 0x100_0000 * Shared(h.x0, 0x1000000, h.x1, 4) as int + 0x1_0000_0000 * Byte(h.x1, 0x40) as int
        + 0x100_0000_0000 * Byte(h.x1, 0x4000) as int
      + 0x1_0000_0000_0000 * Shared(h.x1, 0x400000, h.x2, 8) as int + 0x100_0000_0000_0000 * Byte(h.x2, 0x20) as int
  {
    hide Byte, Shared;
  }

  lemma CutWord1(h: Fe)
    ensures Word(Cut(h), 8) == Byte(h.x2, 0x2000) + 0x100 * Shared(h.x2, 0x200000, h.x3, 32) as int
        + 0x1_0000 * Byte(h.x3, 0x8) as int
      + 0x100_0000 * Byte(h.x3, 0x800) as int + 0x1_0000_0000 * Shared(h.x3, 0x80000, h.x4, 64) as int
        + 0x100_0000_0000 * Byte(h.x4, 0x4) as int
      + 0x1_0000_0000_0000 * Byte(h.x4, 0x400) as int + 0x100_0000_0000_0000 * Byte(h.x4, 0x40000) as int
  {
    hide Byte, Shared;
  }

  lemma CutWord2(h: Fe)
    ensures Word(Cut(h), 16) == Byte(h.x5, 1) + 0x100 * Byte(h.x5, 0x100) as int + 0x1_0000 * Byte(h.x5, 0x10000) as int
      + 0x100_0000 * Shared(h.x5, 0x1000000, h.x6, 2) as int + 0x1_0000_0000 * Byte(h.x6, 0x80) as int
        + 0x100_0000_0000 * Byte(h.x6, 0x8000) as int
      + 0x1_0000_0000_0000 * Shared(h.x6, 0x800000, h.x7, 8) as int + 0x100_0000_0000_0000 * Byte(h.x7, 0x20) as int
  {
    hide Byte, Shared;
  }

  lemma CutWord3(h: Fe)
    ensures Word(Cut(h), 24) == Byte(h.x7, 0x2000) + 0x100 * Shared(h.x7, 0x200000, h.x8, 16) as int
        + 0x1_0000 * Byte(h.x8, 0x10) as int
      + 0x100_0000 * Byte(h.x8, 0x1000) as int + 0x1_0000_0000 * Shared(h.x8, 0x100000, h.x9, 64) as int
        + 0x100_0000_0000 * Byte(h.x9, 0x4) as int
      + 0x1_0000_0000_0000 * Byte(h.x9, 0x400) as int + 0x100_0000_0000_0000 * Byte(h.x9, 0x40000) as int
  {
    hide Byte, Shared;
  }

  lemma CutLower(h: Fe)
    requires CanonicalLimbs(h)
    ensures Word(Cut(h), 0) + 0x1_0000_0000_0000_0000 * Word(Cut(h), 8) == h.x0
        + TWO26 * (h.x1 + TWO25 * (h.x2 + TWO26 * (h.x3 + TWO25 * h.x4)))
  {
    hide Byte, Shared, High, Low, Cut, Word;
    CutWord0(h);
    CutWord1(h);
    Pieces(h.x0, 256);
    Pieces(h.x1, 64);
    Pieces(h.x2, 32);
    Pieces(h.x3, 8);
    Pieces(h.x4, 4);
    Shared01(h.x0, h.x1);
    Shared12(h.x1, h.x2);
    Shared23(h.x2, h.x3);
    Shared34(h.x3, h.x4);
    FirstByte(h.x0);
    LastByte(h.x4);
  }

  lemma CutUpper(h: Fe)
    requires CanonicalLimbs(h)
    ensures Word(Cut(h), 16) + 0x1_0000_0000_0000_0000 * Word(Cut(h), 24) == h.x5
        + TWO25 * (h.x6 + TWO26 * (h.x7 + TWO25 * (h.x8 + TWO26 * h.x9)))
  {
    hide Byte, Shared, High, Low, Cut, Word;
    CutWord2(h);
    CutWord3(h);
    Pieces(h.x5, 256);
    Pieces(h.x6, 128);
    Pieces(h.x7, 32);
    Pieces(h.x8, 16);
    Pieces(h.x9, 4);
    Shared56(h.x5, h.x6);
    Shared67(h.x6, h.x7);
    Shared78(h.x7, h.x8);
    Shared89(h.x8, h.x9);
    FirstByte(h.x5);
    LastByte(h.x9);
  }

  // A byte shared by two limbs holds the rest of one, and the low bits of the next.

  /** The low bits of h and the bits of y above them, in one byte. */
  lemma SharedSplit(h: nat, y: nat, m: nat, k: nat)
    requires 0 < m && 0 < k && m * k == 0x100 && h < m
    ensures (h + y * m) % 0x100 == h + m * (y % k)
  {
    var q, r := y / k, y % k;
    DivideBack(y, k);
    assert y * m == m * (k * q + r) == m * (k * q) + m * r;
    Regrouped(m, k, q);
    MulMonotone(m, r, k - 1);
    assert m * (k - 1) == m * k - m;
    ModUnique(h + y * m, 0x100, q, h + m * r);
  }

  lemma Regrouped(m: int, k: int, q: int)
    ensures m * (k * q) == (m * k) * q
  {
  }

  lemma Shared01(x: nat, y: nat)
    requires x < TWO26
    ensures Shared(x, 0x1000000, y, 4) == High(x, 0x1000000) + 4 * Low(y, 64)
  {
    SharedSplit(x / 0x1000000, y, 4, 64);
  }

  lemma Shared12(x: nat, y: nat)
    requires x < TWO25
    ensures Shared(x, 0x400000, y, 8) == High(x, 0x400000) + 8 * Low(y, 32)
  {
    SharedSplit(x / 0x400000, y, 8, 32);
  }

  lemma Shared23(x: nat, y: nat)
    requires x < TWO26
    ensures Shared(x, 0x200000, y, 32) == High(x, 0x200000) + 32 * Low(y, 8)
  {
    SharedSplit(x / 0x200000, y, 32, 8);
  }

  lemma Shared34(x: nat, y: nat)
    requires x < TWO25
    ensures Shared(x, 0x80000, y, 64) == High(x, 0x80000) + 64 * Low(y, 4)
  {
    SharedSplit(x / 0x80000, y, 64, 4);
  }

  lemma Shared56(x: nat, y: nat)
    requires x < TWO25
    ensures Shared(x, 0x1000000, y, 2) == High(x, 0x1000000) + 2 * Low(y, 128)
  {
    SharedSplit(x / 0x1000000, y, 2, 128);
  }

  lemma Shared67(x: nat, y: nat)
    requires x < TWO26
    ensures Shared(x, 0x800000, y, 8) == High(x, 0x800000) + 8 * Low(y, 32)
  {
    SharedSplit(x / 0x800000, y, 8, 32);
  }

  lemma Shared78(x: nat, y: nat)
    requires x < TWO25
    ensures Shared(x, 0x200000, y, 16) == High(x, 0x200000) + 16 * Low(y, 16)
  {
    SharedSplit(x / 0x200000, y, 16, 16);
  }

  lemma Shared89(x: nat, y: nat)
    requires x < TWO26
    ensures Shared(x, 0x100000, y, 64) == High(x, 0x100000) + 64 * Low(y, 4)
  {
    SharedSplit(x / 0x100000, y, 64, 4);
  }

  lemma FirstByte(x: nat)
    ensures Byte(x, 1) == Low(x, 0x100)
  {
  }

  lemma LastByte(x: nat)
    requires x < TWO26
    ensures Byte(x, 0x40000) == High(x, 0x40000)
  {
  }

  lemma CutValue(h: Fe)
    requires CanonicalLimbs(h)
    ensures D.Value(Cut(h)) == Val(h)
  {
    hide Cut, Word;
    FourWords(Cut(h));
    CutLower(h);
    CutUpper(h);
  }

  /** The unique representative of h in [0, p), in 32 bytes. */
  method FeToBytes(h: Fe) returns (s: seq<uint8>)
    requires ByteInput(h)
    ensures |s| == 32 && D.Value(s) == Val(h) % P
  {
    hide Val, ByteInput, CanonicalLimbs, Cut;
    var q := Quotient(h);
    var r := Reduce(h, q);
    CutValue(r);
    s := Cut(r);
    ModUnique(Val(h), P, q, Val(r));
  }

  // ----- reading bytes -----

  function Load3(s: seq<uint8>, i: nat): nat
    requires i + 3 <= |s|
  {
    s[i] + 0x100 * s[i + 1] as int + 0x1_0000 * s[i + 2] as int
  }

  function Load4(s: seq<uint8>, i: nat): nat
    requires i + 4 <= |s|
  {
    Load3(s, i) + 0x100_0000 * s[i + 3] as int
  }

  /** The limbs that bytes fall into, before carrying; the top bit is ignored. */
  function Loaded(s: seq<uint8>): (w: Wide)
    requires |s| == 32
    ensures SmallWide(w)
  {
    Wide(Load4(s, 0), Load3(s, 4) * 64, Load3(s, 7) * 32, Load3(s, 10) * 8, Load3(s, 13) * 4, Load4(s, 16),
      Load3(s, 20) * 128,
      Load3(s, 23) * 32, Load3(s, 26) * 16, Load3(s, 29) % 0x80_0000 * 4)
  }

  lemma LoadedLower(s: seq<uint8>)
    requires |s| == 32
    ensures Load4(s, 0) + TWO26 * (Load3(s, 4) * 64
        + TWO25 * (Load3(s, 7) * 32 + TWO26 * (Load3(s, 10) * 8 + TWO25 * (Load3(s, 13) * 4))))
      == Word(s, 0) + 0x1_0000_0000_0000_0000 * Word(s, 8)
  {
  }

  /** The last word without the top bit. */
  function LastWord(s: seq<uint8>): int
    requires |s| == 32
  {
    Word(s, 24) - 0x8000_0000_0000_0000 * (s[31] as int / 128)
  }

  lemma LoadedUpper(s: seq<uint8>)
    requires |s| == 32
    ensures Load4(s, 16) + TWO25 * (Load3(s, 20) * 128 + TWO26 * (Load3(s, 23) * 32 + TWO25 * (Load3(s, 26) * 16
      + TWO26 * (Load3(s, 29) % 0x80_0000 * 4)))) == Word(s, 16) + 0x1_0000_0000_0000_0000 * LastWord(s)
  {
    var b := s[31] as int;
    assert Load3(s, 29) == s[29] + 0x100 * s[30] as int + 0x1_0000 * (b % 128) + 0x80_0000 * (b / 128);
    ModUnique(Load3(s, 29), 0x80_0000, b / 128, s[29] + 0x100 * s[30] as int + 0x1_0000 * (b % 128));
  }

  lemma WordRange(s: seq<uint8>, i: nat)
    requires i + 8 <= |s|
    ensures 0 <= Word(s, i) < 0x1_0000_0000_0000_0000
  {
  }

  lemma LastWordRange(s: seq<uint8>)
    requires |s| == 32
    ensures 0 <= LastWord(s) < 0x8000_0000_0000_0000
  {
  }

  lemma LoadedValue(s: seq<uint8>)
    requires |s| == 32
    ensures WideVal(Loaded(s)) == D.Value(s) % TWO255
  {
    hide Word, LastWord, Load3, Load4;
    FourWords(s);
    LoadedLower(s);
    LoadedUpper(s);
    WordRange(s, 0);
    WordRange(s, 8);
    WordRange(s, 16);
    LastWordRange(s);
    LastWordIs(s);
    ModUnique(D.Value(s), TWO255, s[31] / 128, WideVal(Loaded(s)));
  }

  lemma LastWordIs(s: seq<uint8>)
    requires |s| == 32
    ensures Word(s, 24) == LastWord(s) + 0x8000_0000_0000_0000 * (s[31] as int / 128)
  {
  }

  /** The number in the bytes, without their top bit. */
  method FeFromBytes(s: seq<uint8>) returns (h: Fe)
    requires |s| == 32
    ensures Reduced(h) && Cong(Val(h), D.Value(s) % TWO255)
  {
    hide Val, WideVal, Loaded, Cong, Reduced;
    LoadedValue(s);
    h := CarryOddEven(Loaded(s));
  }

  // ----- there and back -----

  lemma CongMod(a: int, b: int)
    requires Cong(a, b)
    ensures a % P == b % P
  {
    var k :| Differ(a, b, k);
    DifferMeans(a, b, k);
    ModUnique(a, P, b / P + k, b % P);
  }

  lemma LowByte(s: seq<uint8>)
    requires s != []
    ensures D.Value(s) == 256 * D.Value(s[1..]) + s[0] && D.Value(s) % 256 == s[0]
  {
    ModUnique(D.Value(s), 256, D.Value(s[1..]), s[0]);
  }

  lemma {:induction false} ValueUnique(s: seq<uint8>, t: seq<uint8>)
    requires |s| == |t| && D.Value(s) == D.Value(t)
    ensures s == t
  {
    hide D.Value;
    if s != [] {
      LowByte(s);
      LowByte(t);
      ValueUnique(s[1..], t[1..]);
      assert s == [s[0]] + s[1..] && t == [t[0]] + t[1..];
    }
  }

  /** Writing what was read from s clears the top bit and reduces modulo p; a canonical encoding
      comes back as it was. */
  lemma Reencoded(s: seq<uint8>, h: Fe, t: seq<uint8>)
    requires |s| == 32 && Cong(Val(h), D.Value(s) % TWO255)
    requires |t| == 32 && D.Value(t) == Val(h) % P
    ensures D.Value(t) == D.Value(s) % TWO255 % P
    ensures D.Value(s) < P ==> t == s
  {
    hide Val, Cong;
    CongMod(Val(h), D.Value(s) % TWO255);
    if D.Value(s) < P {
      BelowTop(D.Value(s));
      ValueUnique(s, t);
    }
  }

  lemma BelowTop(v: nat)
    requires v < P
    ensures v % TWO255 % P == v
  {
  }
}
