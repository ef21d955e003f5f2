/** Conditional moves and swaps of field elements by masks instead of branches. */
module LimbMasks {
  import opened Field25519

  // ----- words of n bits -----

  /** Exclusive or of the lowest n bits. */
  function Xor(n: nat, a: nat, b: nat): nat {
    if n == 0 then 0 else (a + b) % 2 + 2 * Xor(n - 1, a / 2, b / 2)
  }

  /** Conjunction of the lowest n bits. */
  function And(n: nat, a: nat, b: nat): nat {
    if n == 0 then 0 else (if a % 2 == 1 && b % 2 == 1 then 1 else 0) + 2 * And(n - 1, a / 2, b / 2)
  }

  /** n bits that are all one. */
  function Ones(n: nat): nat {
    if n == 0 then 0 else 1 + 2 * Ones(n - 1)
  }

  lemma {:induction false} XorZero(n: nat, a: nat)
    requires a <= Ones(n)
    ensures Xor(n, a, 0) == a
    decreases n
  {
    if n > 0 {
      XorZero(n - 1, a / 2);
    }
  }

  lemma {:induction false} XorBound(n: nat, a: nat, b: nat)
    ensures Xor(n, a, b) <= Ones(n)
    decreases n
  {
    if n > 0 {
      XorBound(n - 1, a / 2, b / 2);
    }
  }

  lemma {:induction false} XorCommutes(n: nat, a: nat, b: nat)
    ensures Xor(n, a, b) == Xor(n, b, a)
    decreases n
  {
    if n > 0 {
      XorCommutes(n - 1, a / 2, b / 2);
    }
  }

  lemma XorHalf(n: nat, a: nat, b: nat)
    requires n > 0
    ensures Xor(n, a, b) % 2 == (a + b) % 2 && Xor(n, a, b) / 2 == Xor(n - 1, a / 2, b / 2)
  {
  }

  lemma XorNothing(a: nat, b: nat)
    ensures Xor(0, a, b) == 0
  {
  }

  /** Applying a word twice leaves what was there. */
  lemma {:induction false} XorBack(n: nat, a: nat, b: nat)
    requires b <= Ones(n)
    ensures Xor(n, a, Xor(n, a, b)) == b
    decreases n
  {
    hide Xor;
    if n == 0 {
      XorNothing(a, Xor(n, a, b));
    } else {
      XorHalf(n, a, b);
      XorHalf(n, a, Xor(n, a, b));
      XorBack(n - 1, a / 2, b / 2);
    }
  }

  lemma {:induction false} AndZero(n: nat, a: nat)
    ensures And(n, a, 0) == 0
    decreases n
  {
    if n > 0 {
      AndZero(n - 1, a / 2);
    }
  }

  lemma {:induction false} AndOnes(n: nat, a: nat)
    requires a <= Ones(n)
    ensures And(n, a, Ones(n)) == a
    decreases n
  {
    if n > 0 {
      AndOnes(n - 1, a / 2);
    }
  }

  // ----- limbs -----

  const BITS: nat := 32

  /** A limb as an unsigned word, and back. */
  function Word(x: int32): nat {
    if x >= 0 then x else x + 0x1_0000_0000
  }

  function Signed(w: nat): int32 {
    if w < 0x8000_0000 then w else if w < 0x1_0000_0000 then w - 0x1_0000_0000 else 0
  }

  lemma WordOnes()
    ensures Ones(BITS) == 0xFFFF_FFFF
  {
    assert Ones(8) == 0xFF;
    assert Ones(16) == 0xFFFF;
    assert Ones(24) == 0xFF_FFFF;
  }

  /** (f ^ g) & -b */
  function Masked(f: int32, g: int32, b: int): nat
    requires 0 <= b <= 1
  {
    And(BITS, Xor(BITS, Word(f), Word(g)), Word(-b))
  }

  /** The masked difference, applied to f, gives g if b is 1, and leaves f if b is 0. */
  lemma MaskedMeaning(f: int32, g: int32, b: int)
    requires 0 <= b <= 1
    ensures Signed(Xor(BITS, Word(f), Masked(f, g, b))) == if b == 1 then g else f
    ensures Signed(Xor(BITS, Word(g), Masked(f, g, b))) == if b == 1 then f else g
  {
    hide Xor, And, Ones;
    var x := Xor(BITS, Word(f), Word(g));
    WordOnes();
    XorBound(BITS, Word(f), Word(g));
    if b == 1 {
      AndOnes(BITS, x);
      XorBack(BITS, Word(f), Word(g));
      XorCommutes(BITS, Word(f), Word(g));
      XorBack(BITS, Word(g), Word(f));
    } else {
      AndZero(BITS, x);
      XorZero(BITS, Word(f));
      XorZero(BITS, Word(g));
    }
  }

  function CmovLimb(f: int32, g: int32, b: int): int32
    requires 0 <= b <= 1
  {
    Signed(Xor(BITS, Word(f), Masked(f, g, b)))
  }

  /** f = g if b is 1 */
  function FeCmov(f: Fe, g: Fe, b: int): Fe
    requires 0 <= b <= 1
  {
    Fe(CmovLimb(f.x0, g.x0, b), CmovLimb(f.x1, g.x1, b), CmovLimb(f.x2, g.x2, b), CmovLimb(f.x3, g.x3, b),
      CmovLimb(f.x4, g.x4, b), CmovLimb(f.x5, g.x5, b), CmovLimb(f.x6, g.x6, b), CmovLimb(f.x7, g.x7, b),
      CmovLimb(f.x8, g.x8, b), CmovLimb(f.x9, g.x9, b))
  }

  lemma CmovMeaning(f: Fe, g: Fe, b: int)
    requires 0 <= b <= 1
    ensures FeCmov(f, g, b) == if b == 1 then g else f
  {
    hide Xor, Masked, Signed;
    MaskedMeaning(f.x0, g.x0, b);
    MaskedMeaning(f.x1, g.x1, b);
    MaskedMeaning(f.x2, g.x2, b);
    MaskedMeaning(f.x3, g.x3, b);
    MaskedMeaning(f.x4, g.x4, b);
    MaskedMeaning(f.x5, g.x5, b);
    MaskedMeaning(f.x6, g.x6, b);
    MaskedMeaning(f.x7, g.x7, b);
    MaskedMeaning(f.x8, g.x8, b);
    MaskedMeaning(f.x9, g.x9, b);
  }

  datatype FePair = FePair(f: Fe, g: Fe)

  /** The second limb of a swap, which applies the same masked difference. */
  function CswapLimb(f: int32, g: int32, b: int): int32
    requires 0 <= b <= 1
  {
    Signed(Xor(BITS, Word(g), Masked(f, g, b)))
  }

  /** f, g = g, f if b is 1 */
  function FeCswap(f: Fe, g: Fe, b: int): FePair
    requires 0 <= b <= 1
  {
    FePair(FeCmov(f, g, b),
      Fe(CswapLimb(f.x0, g.x0, b), CswapLimb(f.x1, g.x1, b), CswapLimb(f.x2, g.x2, b), CswapLimb(f.x3, g.x3, b),
        CswapLimb(f.x4, g.x4, b), CswapLimb(f.x5, g.x5, b), CswapLimb(f.x6, g.x6, b), CswapLimb(f.x7, g.x7, b),
        CswapLimb(f.x8, g.x8, b), CswapLimb(f.x9, g.x9, b)))
  }

  lemma CswapMeaning(f: Fe, g: Fe, b: int)
    requires 0 <= b <= 1
    ensures FeCswap(f, g, b) == if b == 1 then FePair(g, f) else FePair(f, g)
  {
    hide Xor, Masked, Signed, FeCmov;
    CmovMeaning(f, g, b);
    MaskedMeaning(f.x0, g.x0, b);
    MaskedMeaning(f.x1, g.x1, b);
    MaskedMeaning(f.x2, g.x2, b);
    MaskedMeaning(f.x3, g.x3, b);
    MaskedMeaning(f.x4, g.x4, b);
    MaskedMeaning(f.x5, g.x5, b);
    MaskedMeaning(f.x6, g.x6, b);
    MaskedMeaning(f.x7, g.x7, b);
    MaskedMeaning(f.x8, g.x8, b);
    MaskedMeaning(f.x9, g.x9, b);
  }
}
