/** Field operations on limbs that stand for given numbers modulo p. */
module FieldReps {
  import opened Field25519
  import opened FieldMul
  import opened FieldOps

  /** f is n modulo p, with odd limbs up to o. */
  ghost predicate Rep(f: Fe, n: int, o: int) {
    Upto(f, o) && Cong(Val(f), n)
  }

  method Add(f: Fe, g: Fe, ghost m: int, ghost n: int, ghost a: int, ghost b: int) returns (h: Fe)
    requires Rep(f, m, a) && Rep(g, n, b) && a + b < 0x2000_0000
    ensures Rep(h, m + n, a + b + 1)
  {
    hide Cong, Val, Upto;
    h := FeAdd(f, g, a, b);
    CongAdd(Val(f), m, Val(g), n);
  }

  method Sub(f: Fe, g: Fe, ghost m: int, ghost n: int, ghost a: int, ghost b: int) returns (h: Fe)
    requires Rep(f, m, a) && Rep(g, n, b) && a + b < 0x2000_0000
    ensures Rep(h, m - n, a + b + 1)
  {
    hide Cong, Val, Upto;
    h := FeSub(f, g, a, b);
    CongAdd(Val(f), m, Val(g), n);
  }

  method Mul(f: Fe, g: Fe, ghost m: int, ghost n: int, ghost a: int, ghost b: int) returns (h: Fe)
    requires Rep(f, m, a) && Rep(g, n, b) && a <= IN && b <= IN
    ensures Rep(h, m * n, OUT)
  {
    hide Cong, Val, Upto, MulInput, MulOutput;
    Looser(f, a, IN);
    Looser(g, b, IN);
    Bounds(f);
    Bounds(g);
    h := FeMul(f, g);
    Bounds(h);
    CongMul(Val(f), m, Val(g), n);
    CongTrans(Val(h), Val(f) * Val(g), m * n);
  }

  method Sq(f: Fe, ghost m: int, ghost a: int) returns (h: Fe)
    requires Rep(f, m, a) && a <= IN
    ensures Rep(h, m * m, OUT)
  {
    hide Cong, Val, Upto, MulInput, MulOutput;
    Looser(f, a, IN);
    Bounds(f);
    h := FeSq(f);
    Bounds(h);
    CongMul(Val(f), m, Val(f), m);
    CongTrans(Val(h), Val(f) * Val(f), m * m);
  }

  method Sq2(f: Fe, ghost m: int, ghost a: int) returns (h: Fe)
    requires Rep(f, m, a) && a <= IN
    ensures Rep(h, 2 * (m * m), OUT)
  {
    hide Cong, Val, Upto, MulInput, MulOutput;
    Looser(f, a, IN);
    Bounds(f);
    h := FeSq2(f);
    Bounds(h);
    CongMul(Val(f), m, Val(f), m);
    CongAdd(Val(f) * Val(f), m * m, Val(f) * Val(f), m * m);
    CongTrans(Val(h), 2 * (Val(f) * Val(f)), 2 * (m * m));
  }

  method Mul121666(f: Fe, ghost m: int, ghost a: int) returns (h: Fe)
    requires Rep(f, m, a) && a <= 36909875
    ensures Rep(h, 121666 * m, CARRIED)
  {
    hide Cong, Val, Upto;
    Looser(f, a, 36909875);
    h := FeMul121666(f);
    CongRefl(121666);
    CongMul(121666, 121666, Val(f), m);
    CongTrans(Val(h), 121666 * Val(f), 121666 * m);
  }

  lemma RepLooser(f: Fe, n: int, a: int, b: int)
    requires Rep(f, n, a) && a <= b
    ensures Rep(f, n, b)
  {
    hide Cong, Val, Upto;
    Looser(f, a, b);
  }

  lemma {:induction false} PowCong(a: int, b: int, e: nat)
    requires Cong(a, b)
    ensures Cong(Pow(a, e), Pow(b, e))
    decreases e
  {
    hide Cong;
    if e == 0 {
      CongRefl(1);
    } else {
      PowCong(a, b, e - 1);
      CongMul(a, b, Pow(a, e - 1), Pow(b, e - 1));
    }
  }

  method Invert(f: Fe, ghost m: int, ghost a: int) returns (h: Fe)
    requires Rep(f, m, a) && a <= IN
    ensures Rep(h, Pow(m, P - 2), OUT)
  {
    hide Cong, Val, Upto, MulInput, MulOutput, Pow;
    Looser(f, a, IN);
    Bounds(f);
    h := FeInvert(f);
    Bounds(h);
    PowCong(Val(f), m, P - 2);
    CongTrans(Val(h), Pow(Val(f), P - 2), Pow(m, P - 2));
  }
}
