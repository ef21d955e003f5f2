/** Constant-time selection of a signed multiple from a table row, by masks instead of branches. */
module TableSelect {

  import opened Field25519
  import opened LimbMasks
  import Edwards

  /** An entry of the table. */
  type Precomp = Edwards.Precomp

  /** The table form of the neutral element. */
  function Neutral(): Precomp {
    var zero, one := Fe(0, 0, 0, 0, 0, 0, 0, 0, 0, 0), Fe(1, 0, 0, 0, 0, 0, 0, 0, 0, 0);
    Edwards.Precomp(one, one, zero)
  }

  /** The negated limb; the least 32-bit number stays what it is. */
  function NegLimb(x: int32): int32 {
    if x == -0x8000_0000 then x else -x
  }

  function NegLimbs(f: Fe): Fe {
    Fe(NegLimb(f.x0), NegLimb(f.x1), NegLimb(f.x2), NegLimb(f.x3), NegLimb(f.x4), NegLimb(f.x5), NegLimb(f.x6),
      NegLimb(f.x7), NegLimb(f.x8), NegLimb(f.x9))
  }

  /** The table form of the negated point. */
  function Minus(u: Precomp): Precomp {
    Edwards.Precomp(u.yminusx, u.yplusx, NegLimbs(u.xy2d))
  }

  // ----- bit tricks -----

  /** One if the bytes are equal: their difference, minus one, wraps only from zero. */
  function Equal(b: bv8, c: bv8): bv8 {
    var x := b ^ c;
    (((x as bv64) - 1) >> 63) as bv8
  }

  lemma EqualMeaning(b: bv8, c: bv8)
    ensures Equal(b, c) == if b == c then 1 else 0
  {
    var x := b ^ c;
    XorZero(b, c);
    WrapsFromZero(x);
  }

  lemma XorZero(b: bv8, c: bv8)
    ensures (b ^ c == 0) == (b == c)
  {
  }

  lemma WrapsFromZero(x: bv8)
    ensures (((x as bv64) - 1) >> 63) as bv8 == if x == 0 then 1 else 0
  {
  }

  /** A signed char, widened to 64 bits. */
  function Widened(b: bv8): bv64 {
    if b & 0x80 == 0 then b as bv64 else (b as bv64) | 0xFFFF_FFFF_FFFF_FF00
  }

  function Negative(b: bv8): bv8 {
    (Widened(b) >> 63) as bv8
  }

  /** b - ((-negative & b) << 1), in 32 bits, cut to a byte. */
  function Absolute(b: bv8): bv8 {
    var wide := (Widened(b) & 0xFFFF_FFFF) as bv32;
    var mask := 0 - (Negative(b) as bv32);
    ((wide - ((mask & wide) << 1)) & 0xFF) as bv8
  }

  lemma NegativeMeaning(b: bv8)
    ensures Negative(b) == if b & 0x80 == 0 then 0 else 1
  {
  }

  lemma AbsoluteMeaning(b: bv8)
    ensures Absolute(b) == if b & 0x80 == 0 then b else 0 - b
  {
  }

  function Cmov(t: Precomp, u: Precomp, b: bv8): Precomp
    requires b == 0 || b == 1
  {
    var n := if b == 1 then 1 else 0;
    Edwards.Precomp(FeCmov(t.yplusx, u.yplusx, n), FeCmov(t.yminusx, u.yminusx, n), FeCmov(t.xy2d, u.xy2d, n))
  }

  lemma CmovIsChoice(t: Precomp, u: Precomp, b: bv8)
    requires b == 0 || b == 1
    ensures Cmov(t, u, b) == if b == 1 then u else t
  {
    hide FeCmov;
    var n := if b == 1 then 1 else 0;
    CmovMeaning(t.yplusx, u.yplusx, n);
    CmovMeaning(t.yminusx, u.yminusx, n);
    CmovMeaning(t.xy2d, u.xy2d, n);
  }

  // ----- select -----

  /** A digit as a signed char. */
  function AsChar(d: int): bv8
    requires -128 <= d < 128
  {
    if d >= 0 then d as bv8 else 0 - (-d as bv8)
  }

  /** The entry for digit d: row d, or the negated row -d, or the neutral element when d is zero or
      beyond the table. */
  function Chosen(row: seq<Precomp>, d: int): Precomp
    requires |row| == 8
  {
    if 1 <= d <= 8 then row[d - 1] else if -8 <= d < 0 then Minus(row[-d - 1]) else Neutral()
  }

  lemma TopBit(d: int)
    requires -8 <= d <= 16
    ensures (AsChar(d) & 0x80 == 0) == (d >= 0)
  {
  }

  lemma SmallChars()
    ensures AsChar(1) == 1 && AsChar(2) == 2 && AsChar(3) == 3 && AsChar(4) == 4
    ensures AsChar(5) == 5 && AsChar(6) == 6 && AsChar(7) == 7 && AsChar(8) == 8
  {
    hide AsChar;
    LowChars();
    HighChars();
  }

  lemma LowChars()
    ensures AsChar(1) == 1 && AsChar(2) == 2 && AsChar(3) == 3 && AsChar(4) == 4
  {
  }

  lemma HighChars()
    ensures AsChar(5) == 5 && AsChar(6) == 6 && AsChar(7) == 7 && AsChar(8) == 8
  {
  }

  lemma NegatedChar(d: int)
    requires -8 <= d < 0
    ensures 0 - AsChar(d) == AsChar(-d)
  {
  }

  lemma CharFacts(d: int)
    requires -8 <= d <= 16
    ensures Negative(AsChar(d)) == if d < 0 then 1 else 0
    ensures Absolute(AsChar(d)) == AsChar(if d < 0 then -d else d)
  {
    hide AsChar, Negative, Absolute;
    TopBit(d);
    if d < 0 {
      NegatedChar(d);
    }
    NegativeMeaning(AsChar(d));
    AbsoluteMeaning(AsChar(d));
  }

  lemma CharsDiffer(d: int, k: int)
    requires 0 <= d <= 16 && 1 <= k <= 8
    ensures (AsChar(d) == AsChar(k)) == (d == k)
  {
  }

  method Select(row: seq<Precomp>, b: bv8, ghost d: int) returns (t: Precomp)
    requires |row| == 8 && -8 <= d <= 16 && b == AsChar(d)
    ensures t == Chosen(row, d)
  {
    hide AsChar, Absolute, Negative, Cmov, Minus, Neutral;
    ghost var m := if d < 0 then -d else d;
    CharFacts(d);
    SmallChars();
    var bnegative := Negative(b);
    var babs := Absolute(b);
    t := Neutral();
    t := CmovIfEqual(t, row[0], babs, 1, m, 1);
    t := CmovIfEqual(t, row[1], babs, 2, m, 2);
    t := CmovIfEqual(t, row[2], babs, 3, m, 3);
    t := CmovIfEqual(t, row[3], babs, 4, m, 4);
    t := CmovIfEqual(t, row[4], babs, 5, m, 5);
    t := CmovIfEqual(t, row[5], babs, 6, m, 6);
    t := CmovIfEqual(t, row[6], babs, 7, m, 7);
    t := CmovIfEqual(t, row[7], babs, 8, m, 8);
    CmovIsChoice(t, Minus(t), bnegative);
    t := Cmov(t, Minus(t), bnegative);
  }

  method CmovIfEqual(t: Precomp, u: Precomp, babs: bv8, c: bv8, ghost m: int, ghost k: int) returns (r: Precomp)
    requires 0 <= m <= 16 && 1 <= k <= 8 && babs == AsChar(m) && c == AsChar(k)
    ensures r == if m == k then u else t
  {
    hide AsChar, Equal, Cmov;
    EqualMeaning(babs, c);
    CharsDiffer(m, k);
    CmovIsChoice(t, u, Equal(babs, c));
    r := Cmov(t, u, Equal(babs, c));
  }
}
