/** The signed sliding-window recoding of a scalar. */
module SlideRecoding {
  import opened MachineInts
  import opened Digits

  // ----- the carry of one over binary digits -----

  predicate IsBits(s: seq<int>) {
    forall j | 0 <= j < |s| :: s[j] == 0 || s[j] == 1
  }

  predicate AllOnes(s: seq<int>) {
    forall j | 0 <= j < |s| :: s[j] == 1
  }

  predicate AllZeros(s: seq<int>) {
    forall j | 0 <= j < |s| :: s[j] == 0
  }

  /** Adds one: the trailing ones become zeros, the zero after them becomes one. */
  function Carried(s: seq<int>): (r: seq<int>)
    ensures |r| == |s|
  {
    if s == [] then [] else if s[0] == 0 then [1] + s[1..] else [0] + Carried(s[1..])
  }

  lemma {:induction false} CarriedValue(s: seq<int>)
    requires IsBits(s)
    ensures IsBits(Carried(s))
    ensures Val(Carried(s)) == Val(s) + 1 - (if AllOnes(s) then Shift(|s|, 1) else 0)
    ensures AllOnes(s) ==> AllZeros(Carried(s))
  {
    if s != [] {
      if s[0] == 0 {
        assert ([1] + s[1..])[1..] == s[1..];
      } else {
        CarriedValue(s[1..]);
        var t := Carried(s[1..]);
        assert ([0] + t)[1..] == t;
        ShiftDouble(|s| - 1, 1);
        assert AllOnes(s) == AllOnes(s[1..]);
      }
    }
  }

  /** If the carry reaches the last digit, everything before it is cleared. */
  lemma {:induction false} CarriedTop(s: seq<int>)
    requires IsBits(s) && s != [] && s[|s| - 1] == 0
    ensures Carried(s)[|s| - 1] == 1 ==> AllZeros(Carried(s)[..|s| - 1])
  {
    if s[0] == 1 {
      assert s[1..][|s| - 2] == 0;
      CarriedTop(s[1..]);
      var c := Carried(s[1..]);
      assert Carried(s)[..|s| - 1] == [0] + c[..|s| - 2];
    } else if |s| > 1 {
      assert Carried(s)[|s| - 1] == s[|s| - 1];
    }
  }

  // ----- the state of the recoding -----

  /** A digit of the result: zero, or odd and at most 15 in absolute value. */
  predicate IsDigit(d: int) {
    d == 0 || (d % 2 == 1 && -15 <= d <= 15)
  }

  /** The digits before i are recoded, the others are still bits; together they are worth n,
      or n less the carry that was lost off the top, which leaves nothing above i. */
  ghost predicate Recoding(s: seq<int>, i: nat, n: int, topBit: bool) {
    && |s| == 256 && i <= 256
    && (forall j | 0 <= j < i :: IsDigit(s[j]))
    && (forall j | i <= j < 256 :: s[j] == 0 || s[j] == 1)
    && (Val(s) == n || (topBit && Val(s) == n - Shift(256, 1) && forall j | i <= j < 256 :: s[j] == 0))
    && (!topBit && i < 256 ==> s[255] == 0 || forall j | i <= j < 255 :: s[j] == 0)
  }

  /** While digit i takes in the bits above it: those before i + b are done. */
  ghost predicate Absorbing(s: seq<int>, i: nat, b: nat, n: int, topBit: bool) {
    && |s| == 256 && 1 <= b && i + b <= 256
    && (forall j | 0 <= j < i :: IsDigit(s[j]))
    && IsDigit(s[i]) && s[i] != 0 && s[i] < Shift(b, 1)
    && (forall j | i < j < i + b :: s[j] == 0)
    && (forall j | i + b <= j < 256 :: s[j] == 0 || s[j] == 1)
    && (Val(s) == n || (topBit && Val(s) == n - Shift(256, 1) && forall j | i + b <= j < 256 :: s[j] == 0))
    && (!topBit && i < 255 ==> s[255] == 0 || (s[i] < 0 && forall j | i < j < 255 :: s[j] == 0))
  }

  lemma OpenWindow(s: seq<int>, i: nat, n: int, topBit: bool)
    requires Recoding(s, i, n, topBit) && i < 256 && s[i] != 0
    ensures Absorbing(s, i, 1, n, topBit)
  {
    hide Val;
    assert Shift(1, 1) == 2;
  }

  lemma CloseWindow(s: seq<int>, i: nat, b: nat, n: int, topBit: bool)
    requires Absorbing(s, i, b, n, topBit)
    ensures Recoding(s, i + 1, n, topBit)
  {
    hide Val, Shift, IsDigit;
  }

  lemma SkipZero(s: seq<int>, i: nat, b: nat, n: int, topBit: bool)
    requires Absorbing(s, i, b, n, topBit) && i + b < 256 && s[i + b] == 0
    ensures Absorbing(s, i, b + 1, n, topBit)
  {
    hide Val, IsDigit;
    ShiftDouble(b, 1);
    ShiftMonotone(b, 0, 1);
    ShiftZero(b);
  }

  /** The bit above is added to digit i. */
  function Added(s: seq<int>, i: nat, b: nat): seq<int>
    requires i < i + b < |s|
  {
    s[i := s[i] + Shift(b, s[i + b])][i + b := 0]
  }

  lemma AddKeeps(s: seq<int>, i: nat, b: nat, n: int, topBit: bool)
    requires Absorbing(s, i, b, n, topBit) && i + b < 256 && s[i + b] == 1 && s[i] + Shift(b, 1) <= 15
    ensures Absorbing(Added(s, i, b), i, b + 1, n, topBit)
  {
    hide Val;
    ShiftDouble(b - 1, 1);
    ShiftDouble(b, 1);
    ShiftMonotone(b, 0, 1);
    ShiftZero(b);
    ValUpdate(s, i, s[i] + Shift(b, 1));
    ValUpdate(s[i := s[i] + Shift(b, 1)], i + b, 0);
    ShiftShift(i, b, 1);
    ShiftAdd(i + b, 1, -1);
    ShiftZero(i + b);
  }

  /** Digit i without the bit above. */
  function Lowered(s: seq<int>, i: nat, b: nat): (t: seq<int>)
    requires i < i + b < |s|
    ensures |t| == |s|
  {
    s[i := s[i] - Shift(b, s[i + b])]
  }

  /** The bit above is subtracted from digit i, and two are carried from it. */
  function Borrowed(s: seq<int>, i: nat, b: nat): seq<int>
    requires i < i + b < |s|
  {
    Lowered(s, i, b)[..i + b] + Carried(Lowered(s, i, b)[i + b..])
  }

  lemma LoweredValue(s: seq<int>, i: nat, b: nat)
    requires 1 <= b && i + b < |s| && s[i + b] == 1
    ensures Val(Lowered(s, i, b)) == Val(s) - Shift(i + b, 1) && Lowered(s, i, b)[i + b..] == s[i + b..]
  {
    hide Val, Shift;
    ValUpdate(s, i, s[i] - Shift(b, 1));
    ShiftNegate(i, Shift(b, 1));
    ShiftShift(i, b, 1);
  }

  /** Carrying one from position k on. */
  lemma CarryValue(t: seq<int>, k: nat)
    requires k <= |t| && IsBits(t[k..])
    ensures Val(t[..k] + Carried(t[k..]))
      == Val(t) + Shift(k, 1) - (if AllOnes(t[k..]) then Shift(|t|, 1) else 0)
  {
    hide Val, Carried, IsBits, AllOnes, Shift;
    CarriedValue(t[k..]);
    ValTail(t, k, Carried(t[k..]));
    if AllOnes(t[k..]) {
      ShiftAdd(k, 1, -Shift(|t| - k, 1));
      ShiftNegate(k, Shift(|t| - k, 1));
      ShiftShift(k, |t| - k, 1);
    }
  }

  lemma BorrowValue(s: seq<int>, i: nat, b: nat)
    requires 1 <= b && i + b < |s| && IsBits(s[i + b..]) && s[i + b] == 1
    ensures IsBits(Carried(s[i + b..]))
    ensures Val(Borrowed(s, i, b)) == Val(s) - (if AllOnes(s[i + b..]) then Shift(|s|, 1) else 0)
    ensures AllOnes(s[i + b..]) ==> AllZeros(Carried(s[i + b..]))
  {
    hide Val, Carried, IsBits, AllOnes, AllZeros, Shift, Lowered;
    LoweredValue(s, i, b);
    CarriedValue(s[i + b..]);
    CarryValue(Lowered(s, i, b), i + b);
  }

  lemma BorrowKeeps(s: seq<int>, i: nat, b: nat, n: int, topBit: bool)
    requires Absorbing(s, i, b, n, topBit) && i + b < 256 && s[i + b] == 1
    requires s[i] + Shift(b, 1) > 15 && s[i] - Shift(b, 1) >= -15
    ensures Absorbing(Borrowed(s, i, b), i, b + 1, n, topBit)
  {
    hide Val, Carried;
    var k := i + b;
    ShiftDouble(b - 1, 1);
    ShiftDouble(b, 1);
    ShiftMonotone(b, 0, 1);
    ShiftZero(b);
    BorrowValue(s, i, b);
    var c := Carried(s[k..]);
    CarriedFirst(s[k..]);
    if !topBit {
      assert s[i] > 0;
      assert s[255] == 0;
      assert s[k..][255 - k] == 0;
      CarriedTop(s[k..]);
    }
    LoweredValue(s, i, b);
    assert Borrowed(s, i, b) == Lowered(s, i, b)[..k] + c;
  }

  lemma CarriedFirst(s: seq<int>)
    requires s != [] && s[0] == 1
    ensures Carried(s)[0] == 0
  {
  }

  lemma StartRecoding(a: seq<uint8>)
    requires |a| == 32
    ensures Recoding(ScalarBits(a), 0, Value(a), a[31] >= 128)
  {
    hide Val, Value, Shift;
    ValScalarBits(a);
    forall j | 0 <= j < 256 ensures ScalarBits(a)[j] == 0 || ScalarBits(a)[j] == 1 {
      BitRange(a[j / 8], j % 8);
    }
    TopBit(a[31]);
    assert ScalarBits(a)[255] == BitOf(a[31], 7);
  }

  lemma TopBit(b: uint8)
    ensures BitOf(b, 7) == (if b >= 128 then 1 else 0)
  {
    assert Shift(7, 1) == 128;
    HighBit(b, 7);
  }

  lemma {:induction false} HighBit(b: nat, j: nat)
    requires b < 2 * Shift(j, 1)
    ensures BitOf(b, j) == (if b >= Shift(j, 1) then 1 else 0)
    decreases j
  {
    if j > 0 {
      ShiftDouble(j - 1, 1);
      HighBit(b / 2, j - 1);
    }
  }

  // ----- the recoding as a function -----

  /** Digit i takes in the bits from i + b on. */
  function Absorbed(s: seq<int>, i: nat, b: nat): (t: seq<int>)
    requires |s| == 256 && i < 256 && 1 <= b
    ensures |t| == 256
    decreases 256 - b
  {
    if b > 6 || i + b >= 256 then s
    else if s[i + b] == 0 then Absorbed(s, i, b + 1)
    else if s[i] + Shift(b, s[i + b]) <= 15 then Absorbed(Added(s, i, b), i, b + 1)
    else if s[i] - Shift(b, s[i + b]) >= -15 then Absorbed(Borrowed(s, i, b), i, b + 1)
    else s
  }

  /** The digits from i on are recoded. */
  function Slid(s: seq<int>, i: nat): (t: seq<int>)
    requires |s| == 256 && i <= 256
    ensures |t| == 256
    decreases 256 - i
  {
    if i == 256 then s else Slid(if s[i] == 0 then s else Absorbed(s, i, 1), i + 1)
  }

  lemma {:induction false} SlidZeros(s: seq<int>, i: nat, j: nat)
    requires |s| == 256 && i <= j <= 256 && forall m | i <= m < j :: s[m] == 0
    ensures Slid(s, i) == Slid(s, j)
    decreases j - i
  {
    if i < j {
      SlidZeros(s, i + 1, j);
    }
  }

  /** The scalar 17 * 2^251. */
  function Losing(): (a: seq<uint8>)
    ensures |a| == 32
  {
    seq(31, i => 0) + [0x88]
  }

  lemma LosingBits()
    ensures forall j | 0 <= j < 256 :: ScalarBits(Losing())[j] == if j == 251 || j == 255 then 1 else 0
  {
    var a := Losing();
    forall j | 0 <= j < 256 ensures ScalarBits(a)[j] == if j == 251 || j == 255 then 1 else 0 {
      if j < 248 {
        ZeroBit(j % 8);
      } else {
        assert a[j / 8] == 0x88;
        LosingByte();
      }
    }
  }

  lemma LosingByte()
    ensures BitOf(0x88, 0) == 0 && BitOf(0x88, 1) == 0 && BitOf(0x88, 2) == 0 && BitOf(0x88, 3) == 1
    ensures BitOf(0x88, 4) == 0 && BitOf(0x88, 5) == 0 && BitOf(0x88, 6) == 0 && BitOf(0x88, 7) == 1
  {
  }

  lemma {:induction false} ZeroBit(j: nat)
    ensures BitOf(0, j) == 0
  {
    if j > 0 {
      ZeroBit(j - 1);
    }
  }

  /** For this scalar the carry is lost: the digits are worth 2^256 less. */
  lemma CarryLost()
    ensures Val(Slid(ScalarBits(Losing()), 0)) == Value(Losing()) - Shift(256, 1)
  {
    hide Val, Value, Losing, ScalarBits, Slid, Absorbed;
    var s := ScalarBits(Losing());
    LosingBits();
    SlidZeros(s, 0, 251);
    OneBorrow(s);
    var t := Borrowed(s, 251, 4);
    BorrowValue(s, 251, 4);
    SlidZeros(t, 252, 256);
    SlidAll(t);
    ValScalarBits(Losing());
  }

  lemma SlidAll(s: seq<int>)
    requires |s| == 256
    ensures Slid(s, 256) == s
  {
  }

  lemma OneBorrow(s: seq<int>)
    requires |s| == 256 && forall j | 0 <= j < 256 :: s[j] == if j == 251 || j == 255 then 1 else 0
    ensures Slid(s, 251) == Slid(Borrowed(s, 251, 4), 252)
    ensures IsBits(s[255..]) && AllOnes(s[255..])
    ensures forall j | 252 <= j < 256 :: Borrowed(s, 251, 4)[j] == 0
  {
    assert Shift(4, 1) == 16;
    assert s[255..] == [1];
    assert Carried([1]) == [0];
    assert Absorbed(s, 251, 3) == Absorbed(s, 251, 4) == Absorbed(Borrowed(s, 251, 4), 251, 5);
    assert Absorbed(s, 251, 1) == Absorbed(s, 251, 2);
  }

  // ----- the recoding, in place -----

  /** The result of slide: odd digits of at most 15, worth the scalar; the carry out of digit 255
      can only be lost when the top bit of the scalar is set. */
  ghost predicate Recoded(s: seq<int>, a: seq<uint8>) {
    && |s| == 256 && |a| == 32
    && (forall j | 0 <= j < 256 :: IsDigit(s[j]))
    && (Val(s) == Value(a) || (a[31] >= 128 && Val(s) == Value(a) - Shift(256, 1)))
  }

  method Slide(r: array<int>, a: seq<uint8>)
    requires r.Length == 256 && |a| == 32
    modifies r
    ensures r[..] == Slid(ScalarBits(a), 0) && Recoded(r[..], a)
  {
    hide Val, Value, Shift, IsDigit, ScalarBit, Absorbed, BitOf;
    for i := 0 to 256
      invariant forall j | 0 <= j < i :: r[j] == ScalarBit(a, j)
    {
      r[i] := BitOf(a[i / 8], i % 8);
      BitIs(a, i);
    }
    assert r[..] == ScalarBits(a);
    StartRecoding(a);
    for i := 0 to 256
      invariant Recoding(r[..], i, Value(a), a[31] >= 128)
      invariant Slid(r[..], i) == Slid(ScalarBits(a), 0)
    {
      if r[i] != 0 {
        AbsorbAbove(r, i, Value(a), a[31] >= 128);
      } else {
        StayZero(r[..], i, Value(a), a[31] >= 128);
      }
    }
  }

  lemma BitIs(a: seq<uint8>, i: nat)
    requires i < 8 * |a|
    ensures BitOf(a[i / 8], i % 8) == ScalarBit(a, i)
  {
  }

  lemma StayZero(s: seq<int>, i: nat, n: int, topBit: bool)
    requires Recoding(s, i, n, topBit) && i < 256 && s[i] == 0
    ensures Recoding(s, i + 1, n, topBit)
  {
    hide Val, Shift;
  }

  method AbsorbAbove(r: array<int>, i: nat, ghost n: int, ghost topBit: bool)
    requires r.Length == 256 && i < 256 && r[i] != 0 && Recoding(r[..], i, n, topBit)
    modifies r
    ensures Recoding(r[..], i + 1, n, topBit)
    ensures r[..] == Absorbed(old(r[..]), i, 1)
  {
    hide Recoding, Absorbing, Absorbed;
    OpenWindow(r[..], i, n, topBit);
    var b := 1;
    while b <= 6 && i + b < 256
      invariant 1 <= b && i + b <= 256 && Absorbing(r[..], i, b, n, topBit)
      invariant Absorbed(r[..], i, b) == Absorbed(old(r[..]), i, 1)
    {
      var more := AbsorbBit(r, i, b, n, topBit);
      if !more {
        CloseWindow(r[..], i, b, n, topBit);
        return;
      }
      b := b + 1;
    }
    AbsorbedEnd(r[..], i, b);
    CloseWindow(r[..], i, b, n, topBit);
  }

  lemma AbsorbedEnd(s: seq<int>, i: nat, b: nat)
    requires |s| == 256 && i < 256 && 1 <= b && (b > 6 || i + b >= 256)
    ensures Absorbed(s, i, b) == s
  {
  }

  /** The next bit is added or borrowed; false when neither is possible. */
  method AbsorbBit(r: array<int>, i: nat, b: nat, ghost n: int, ghost topBit: bool) returns (more: bool)
    requires r.Length == 256 && 1 <= b <= 6 && i + b < 256 && Absorbing(r[..], i, b, n, topBit)
    modifies r
    ensures more ==> Absorbing(r[..], i, b + 1, n, topBit) && Absorbed(r[..], i, b + 1) == Absorbed(old(r[..]), i, b)
    ensures !more ==> r[..] == old(r[..]) == Absorbed(old(r[..]), i, b)
  {
    hide Absorbing, Val, Shift, Absorbed;
    ghost var s := r[..];
    AbsorbedStep(s, i, b);
    if r[i + b] != 0 {
      AbsorbingBit(s, i, b, n, topBit);
      var w := Shift(b, r[i + b]);
      if r[i] + w <= 15 {
        AddKeeps(s, i, b, n, topBit);
        r[i] := r[i] + w;
        r[i + b] := 0;
        assert r[..] == Added(s, i, b);
      } else if r[i] - w >= -15 {
        BorrowKeeps(s, i, b, n, topBit);
        r[i] := r[i] - w;
        assert r[..] == Lowered(s, i, b);
        CarryFrom(r, i + b);
        assert r[..] == Borrowed(s, i, b);
      } else {
        return false;
      }
    } else {
      SkipZero(s, i, b, n, topBit);
    }
    more := true;
  }

  lemma AbsorbedStep(s: seq<int>, i: nat, b: nat)
    requires |s| == 256 && 1 <= b <= 6 && i + b < 256
    ensures Absorbed(s, i, b) ==
      if s[i + b] == 0 then Absorbed(s, i, b + 1)
      else if s[i] + Shift(b, s[i + b]) <= 15 then Absorbed(Added(s, i, b), i, b + 1)
      else if s[i] - Shift(b, s[i + b]) >= -15 then Absorbed(Borrowed(s, i, b), i, b + 1)
      else s
  {
    hide Added, Borrowed, Shift;
  }

  lemma AbsorbingBit(s: seq<int>, i: nat, b: nat, n: int, topBit: bool)
    requires Absorbing(s, i, b, n, topBit) && i + b < 256 && s[i + b] != 0
    ensures s[i + b] == 1
  {
  }

  /** Adds one at position k: clears ones up to the first zero, and sets that. */
  method CarryFrom(r: array<int>, k: nat)
    requires r.Length == 256 && k < 256
    modifies r
    ensures r[..] == old(r[..k]) + Carried(old(r[k..]))
  {
    ghost var s := r[k..];
    for j := k to 256
      invariant forall m | 0 <= m < 256 :: r[m] == if k <= m < j then 0 else old(r[m])
      invariant forall m | 0 <= m < j - k :: s[m] != 0
    {
      if r[j] == 0 {
        r[j] := 1;
        CarriedShape(s, j - k);
        return;
      }
      r[j] := 0;
    }
    CarriedShape(s, 256 - k);
  }

  lemma {:induction false} CarriedShape(s: seq<int>, n: nat)
    requires n <= |s| && (forall m | 0 <= m < n :: s[m] != 0) && (n < |s| ==> s[n] == 0)
    ensures forall m | 0 <= m < |s| :: Carried(s)[m] == if m < n then 0 else if m == n then 1 else s[m]
    decreases n
  {
    if n > 0 {
      forall m | 0 <= m < |s| - 1 ensures s[1..][m] == s[m + 1] {
      }
      CarriedShape(s[1..], n - 1);
    }
  }
}
