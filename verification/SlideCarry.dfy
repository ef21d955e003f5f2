/** Exactly when the recoding of a scalar loses the carry out of its last digit. */
module SlideCarry {
  import opened MachineInts
  import opened Digits
  import opened SlideRecoding

  /** Whether m, taken apart in windows of five bits, carries out of k bits: an even number drops its
      lowest bit, an odd one its five lowest, with a carry of one when these are worth 16 or more.
      A window that is cut off by the end of the k bits carries nothing. */
  predicate Overflows(m: nat, k: nat)
    decreases k
  {
    if k < 5 then false
    else if m % 2 == 0 then Overflows(m / 2, k - 1)
    else if m % 32 < 16 then Overflows(m / 32, k - 5)
    else m / 32 + 1 == Shift(k - 5, 1) || Overflows(m / 32 + 1, k - 5)
  }

  lemma {:induction false} BitsWorth(s: seq<int>)
    requires IsBits(s)
    ensures 0 <= Val(s) < Shift(|s|, 1)
    ensures Val(s) + 1 == Shift(|s|, 1) <==> AllOnes(s)
  {
    if s != [] {
      BitsWorth(s[1..]);
      ShiftDouble(|s| - 1, 1);
      assert AllOnes(s) <==> s[0] == 1 && AllOnes(s[1..]);
    }
  }

  lemma {:induction false} ZerosWorth(s: seq<int>)
    requires AllZeros(s)
    ensures Val(s) == 0
  {
    if s != [] {
      ZerosWorth(s[1..]);
    }
  }

  lemma {:induction false} NoOverflow(k: nat)
    ensures !Overflows(0, k)
  {
    if k > 0 {
      NoOverflow(k - 1);
    }
  }

  /** Digit i holds the b lowest bits of m, and the bits above it are still to come. */
  ghost predicate Open(s: seq<int>, i: nat, b: nat, m: int) {
    && |s| == 256 && 1 <= b && i + b <= 256
    && (forall j | i < j < i + b :: s[j] == 0)
    && IsBits(s[i + b..])
    && m == s[i] + Shift(b, Val(s[i + b..]))
  }

  /** The window at i is closed: what is left of m is above it, unless the carry was lost. */
  ghost predicate Closed(s: seq<int>, t: seq<int>, i: nat, m: int)
    requires |t| == 256 && i + 5 <= 256
  {
    && (forall j | i < j < i + 5 :: t[j] == 0)
    && IsBits(t[i + 5..])
    && (if m % 32 < 16 then Val(t[i + 5..]) == m / 32 && Val(t) == Val(s)
        else if m / 32 + 1 == Shift(251 - i, 1) then Val(t[i + 5..]) == 0 && Val(t) == Val(s) - Shift(256, 1)
        else Val(t[i + 5..]) == m / 32 + 1 && Val(t) == Val(s))
  }

  /** The next bit of an open window. */
  lemma NextBit(s: seq<int>, i: nat, b: nat, m: int)
    requires Open(s, i, b, m) && i + b < 256
    ensures s[i + b] == 0 || s[i + b] == 1
    ensures IsBits(s[i + b + 1..])
    ensures m == s[i] + Shift(b, s[i + b]) + Shift(b + 1, Val(s[i + b + 1..]))
  {
    var t := s[i + b..];
    assert t[0] == s[i + b] && t[1..] == s[i + b + 1..];
    ShiftAdd(b, t[0], 2 * Val(t[1..]));
    ShiftDouble(b, Val(t[1..]));
  }

  /** One of the first three bits above digit i is taken in. */
  lemma TakeBit(s: seq<int>, i: nat, b: nat, m: int) returns (t: seq<int>)
    requires Open(s, i, b, m) && i + b < 256 && b <= 3 && 0 < s[i] < Shift(b, 1)
    ensures Open(t, i, b + 1, m) && 0 < t[i] < Shift(b + 1, 1)
    ensures Absorbed(s, i, b) == Absorbed(t, i, b + 1) && Val(t) == Val(s)
  {
    hide Val, Absorbed;
    NextBit(s, i, b, m);
    AbsorbedStep(s, i, b);
    ShiftDouble(b, 1);
    ShiftZero(b);
    SmallShift(b);
    if s[i + b] == 0 {
      t := s;
    } else {
      t := Added(s, i, b);
      assert t[i + b + 1..] == s[i + b + 1..];
      AddedWorth(s, i, b);
    }
  }

  lemma SmallShift(b: nat)
    requires 1 <= b <= 3
    ensures Shift(b, 1) <= 8
  {
    assert Shift(1, 1) == 2 && Shift(2, 1) == 4 && Shift(3, 1) == 8;
  }

  lemma AddedWorth(s: seq<int>, i: nat, b: nat)
    requires 1 <= b && i + b < |s| && s[i + b] == 1
    ensures Val(Added(s, i, b)) == Val(s)
  {
    hide Val, Shift;
    ValUpdate(s, i, s[i] + Shift(b, 1));
    ValUpdate(s[i := s[i] + Shift(b, 1)], i + b, 0);
    ShiftShift(i, b, 1);
    ShiftNegate(i + b, 1);
  }

  /** The sixth and the seventh bit are never taken in. */
  lemma Settled(s: seq<int>, i: nat, b: nat)
    requires |s| == 256 && i < 256 && 5 <= b && -15 <= s[i] <= 15
    requires forall j | i + b <= j < 256 :: s[j] == 0 || s[j] == 1
    ensures Absorbed(s, i, b) == s
    decreases 7 - b
  {
    if b <= 6 && i + b < 256 {
      AbsorbedStep(s, i, b);
      LargeShift(b);
      if s[i + b] == 0 {
        Settled(s, i, b + 1);
      }
    }
  }

  lemma LargeShift(b: nat)
    requires 5 <= b <= 6
    ensures Shift(b, 1) >= 32
  {
    assert Shift(5, 1) == 32 && Shift(6, 1) == 64;
  }

  /** The fifth bit is borrowed. */
  lemma CloseBit(s: seq<int>, i: nat, m: int)
    requires Open(s, i, 4, m) && i + 4 < 256 && 0 < s[i] < 16
    ensures Closed(s, Absorbed(s, i, 4), i, m)
  {
    hide Val, Absorbed, Shift;
    NextBit(s, i, 4, m);
    AbsorbedStep(s, i, 4);
    Sixteen(Val(s[i + 5..]));
    if s[i + 4] == 0 {
      Settled(s, i, 5);
    } else {
      BorrowBit(s, i, m);
    }
  }

  lemma FourDoublings(x: int)
    ensures Shift(4, x) == 16 * x
  {
    hide Shift;
    ShiftNone(x);
    ShiftDouble(0, x);
    ShiftDouble(1, x);
    ShiftDouble(2, x);
    ShiftDouble(3, x);
  }

  lemma Sixteen(x: int)
    ensures Shift(4, 1) == 16 && Shift(4, 0) == 0 && Shift(5, x) == 32 * x
  {
    hide Shift;
    FourDoublings(1);
    FourDoublings(x);
    ShiftDouble(4, x);
    ShiftZero(4);
  }

  lemma OneMore(x: seq<int>)
    ensures AllOnes([1] + x) <==> AllOnes(x)
  {
    if AllOnes([1] + x) {
      forall j | 0 <= j < |x| ensures x[j] == 1 {
        assert ([1] + x)[j + 1] == x[j];
      }
    }
  }

  lemma BorrowBit(s: seq<int>, i: nat, m: int)
    requires |s| == 256 && i + 4 < 256 && 0 < s[i] < 16 && s[i + 4] == 1
    requires forall j | i < j < i + 4 :: s[j] == 0
    requires IsBits(s[i + 5..]) && m == s[i] + 16 + 32 * Val(s[i + 5..]) && Shift(4, 1) == 16
    ensures Absorbed(Borrowed(s, i, 4), i, 5) == Borrowed(s, i, 4)
    ensures Closed(s, Borrowed(s, i, 4), i, m)
  {
    hide Val, Absorbed, Shift;
    var x := s[i + 5..];
    var t := Borrowed(s, i, 4);
    assert s[i + 4..] == [1] + x;
    assert s[i + 4..][1..] == x;
    OneMore(x);
    BorrowValue(s, i, 4);
    LoweredValue(s, i, 4);
    assert Carried(s[i + 4..]) == [0] + Carried(x);
    assert t[i + 5..] == Carried(x);
    CarriedValue(x);
    BitsWorth(x);
    if AllOnes(x) {
      ZerosWorth(Carried(x));
    }
    assert forall j | i < j < i + 4 :: t[j] == Lowered(s, i, 4)[j];
    forall j | i + 5 <= j < 256 ensures t[j] == 0 || t[j] == 1 {
      assert t[j] == t[i + 5..][j - i - 5];
    }
    Settled(t, i, 5);
  }

  /** The window at i is closed with its fifth bit, or at the end of the digits. */
  lemma {:induction false} Window(s: seq<int>, i: nat, b: nat, m: int)
    requires Open(s, i, b, m) && b <= 4 && 0 < s[i] < Shift(b, 1)
    ensures i + 5 <= 256 ==> Closed(s, Absorbed(s, i, b), i, m)
    ensures i + 5 > 256 ==> Val(Absorbed(s, i, b)) == Val(s) && forall j | i < j < 256 :: Absorbed(s, i, b)[j] == 0
    decreases 4 - b
  {
    hide Val, Shift;
    if i + b < 256 {
      if b <= 3 {
        var t := TakeBit(s, i, b, m);
        Window(t, i, b + 1, m);
      } else {
        Sixteen(0);
        CloseBit(s, i, m);
      }
    }
  }

  /** Recoding the digits from i on loses 2^256 exactly when the number they hold overflows. */
  lemma {:induction false} SlidValue(s: seq<int>, i: nat)
    requires |s| == 256 && i <= 256 && IsBits(s[i..])
    ensures Val(s[i..]) >= 0
    ensures Val(Slid(s, i)) == Val(s) - (if Overflows(Val(s[i..]), 256 - i) then Shift(256, 1) else 0)
    decreases 256 - i
  {
    hide Val, Shift, Absorbed, Slid, Overflows, AllOnes;
    BitsWorth(s[i..]);
    if i == 256 {
      assert s[i..] == [];
      SlidAll(s);
      ZerosWorth([]);
      NoOverflow(0);
    } else {
      HeadWorth(s, i);
      if s[i] == 0 {
        BitsWorth(s[i + 1..]);
        SlidZeros(s, i, i + 1);
        OverflowsEven(Val(s[i + 1..]), 255 - i);
        SlidValue(s, i + 1);
      } else {
        WindowValue(s, i);
      }
    }
  }

  lemma OverflowsEven(m: nat, k: nat)
    ensures Overflows(2 * m, k + 1) == Overflows(m, k)
  {
  }

  lemma HeadWorth(s: seq<int>, i: nat)
    requires i < |s| && IsBits(s[i..])
    ensures IsBits(s[i + 1..]) && (s[i] == 0 || s[i] == 1)
    ensures Val(s[i..]) == s[i] + 2 * Val(s[i + 1..])
  {
    assert s[i..][0] == s[i] && s[i..][1..] == s[i + 1..];
  }

  lemma OverflowsOdd(m: nat, k: nat)
    requires m % 2 == 1
    ensures k < 5 ==> !Overflows(m, k)
    ensures k >= 5 && m % 32 < 16 ==> Overflows(m, k) == Overflows(m / 32, k - 5)
    ensures k >= 5 && m % 32 >= 16 && m / 32 + 1 == Shift(k - 5, 1) ==> Overflows(m, k)
    ensures k >= 5 && m % 32 >= 16 && m / 32 + 1 != Shift(k - 5, 1) ==>
      Overflows(m, k) == Overflows(m / 32 + 1, k - 5)
  {
    hide Shift;
  }

  lemma SlidOdd(s: seq<int>, i: nat)
    requires |s| == 256 && i < 256 && s[i] != 0
    ensures Slid(s, i) == Slid(Absorbed(s, i, 1), i + 1)
  {
    hide Absorbed;
  }

  lemma WindowValue(s: seq<int>, i: nat)
    requires |s| == 256 && i < 256 && s[i] == 1 && IsBits(s[i..]) && Val(s[i..]) >= 0
    ensures Val(Slid(s, i)) == Val(s) - (if Overflows(Val(s[i..]), 256 - i) then Shift(256, 1) else 0)
    decreases 256 - i, 0
  {
    hide Val, Shift, Absorbed, Slid, Overflows;
    var m := Val(s[i..]);
    HeadWorth(s, i);
    OverflowsOdd(m, 256 - i);
    SlidOdd(s, i);
    OneBit(Val(s[i + 1..]));
    Window(s, i, 1, m);
    var t := Absorbed(s, i, 1);
    if i + 5 > 256 {
      SlidZeros(t, i + 1, 256);
      SlidAll(t);
    } else {
      SlidZeros(t, i + 1, i + 5);
      SlidValue(t, i + 5);
      NoOverflow(251 - i);
    }
  }

  lemma OneBit(x: int)
    ensures Shift(1, 1) == 2 && Shift(1, x) == 2 * x
  {
  }

  /** What the digits of a scalar are worth: the scalar, or 2^256 less where that overflows. */
  function Worth(a: seq<uint8>): int {
    Value(a) - if Overflows(Value(a), 256) then Shift(256, 1) else 0
  }

  lemma SlidWorth(a: seq<uint8>)
    requires |a| == 32
    ensures Val(Slid(ScalarBits(a), 0)) == Worth(a)
  {
    hide Val, Value, Shift, Slid, Overflows;
    var s := ScalarBits(a);
    forall j | 0 <= j < 256 ensures s[j] == 0 || s[j] == 1 {
      BitRange(a[j / 8], j % 8);
    }
    assert s[0..] == s;
    SlidValue(s, 0);
    ValScalarBits(a);
  }

  /** The recoding keeps the value of a scalar if and only if that does not overflow. */
  lemma SlideKeepsValue(a: seq<uint8>)
    requires |a| == 32
    ensures Val(Slid(ScalarBits(a), 0)) == Value(a) <==> !Overflows(Value(a), 256)
  {
    hide Val, Value, Slid, Overflows;
    SlidWorth(a);
    ShiftPositive(256);
  }

  lemma {:induction false} ShiftPositive(k: nat)
    ensures Shift(k, 1) > 0
  {
    if k > 0 {
      ShiftPositive(k - 1);
      ShiftDouble(k - 1, 1);
    }
  }
}
