/** The signed base-sixteen recoding of a scalar. */
module Radix16 {
  import opened MachineInts
  import opened Digits

  /** The value of base-sixteen digits, least significant first. */
  function Val16(s: seq<int>): int {
    if s == [] then 0 else s[0] + 16 * Val16(s[1..])
  }

  lemma ShiftFour(k: nat, x: int)
    ensures Shift(k, 16 * x) == Shift(k + 4, x) == 16 * Shift(k, x)
  {
    ShiftDouble(k, x);
    ShiftDouble(k, 2 * x);
    ShiftDouble(k, 4 * x);
    ShiftDouble(k, 8 * x);
    ShiftDouble(k + 1, x);
    ShiftDouble(k + 2, x);
    ShiftDouble(k + 3, x);
  }

  lemma {:induction false} Val16Update(s: seq<int>, k: nat, v: int)
    requires k < |s|
    ensures Val16(s[k := v]) == Val16(s) + Shift(4 * k, v - s[k])
    decreases k
  {
    if k == 0 {
      assert s[0 := v][1..] == s[1..];
    } else {
      assert s[k := v][1..] == s[1..][k - 1 := v];
      Val16Update(s[1..], k - 1, v);
      ShiftFour(4 * (k - 1), v - s[k]);
    }
  }

  lemma {:induction false} Val16Append(s: seq<int>, t: seq<int>)
    ensures Val16(s + t) == Val16(s) + Shift(4 * |s|, Val16(t))
    decreases |s|
  {
    if s == [] {
      assert s + t == t;
    } else {
      assert (s + t)[1..] == s[1..] + t;
      Val16Append(s[1..], t);
      ShiftFour(4 * (|s| - 1), Val16(t));
    }
  }

  /** The two hexadecimal digits of every byte. */
  function Nibbles(a: seq<uint8>): (s: seq<int>)
    ensures |s| == 2 * |a|
  {
    seq(2 * |a|, i requires 0 <= i < 2 * |a| => if i % 2 == 0 then a[i / 2] % 16 else a[i / 2] / 16)
  }

  lemma {:induction false} NibblesValue(a: seq<uint8>)
    ensures Val16(Nibbles(a)) == Value(a)
  {
    if a != [] {
      var s := Nibbles(a);
      var rest := Nibbles(a[1..]);
      forall i | 0 <= i < |rest| ensures s[i + 2] == rest[i] {
        assert (i + 2) / 2 == i / 2 + 1;
      }
      assert s[1..][1..] == rest;
      assert s[1..][0] == a[0] / 16;
      NibblesValue(a[1..]);
    }
  }

  /** The digits before i are recoded; the carry into digit i is still to be added. */
  ghost predicate Carrying(s: seq<int>, i: nat, carry: int, n: int) {
    && |s| == 64 && i <= 63 && 0 <= carry <= 1
    && (forall j | 0 <= j < i :: -8 <= s[j] <= 7)
    && (forall j | i <= j < 64 :: 0 <= s[j] <= 15)
    && Val16(s) + Shift(4 * i, carry) == n
  }

  lemma CarryStep(s: seq<int>, i: nat, carry: int, n: int)
    requires Carrying(s, i, carry, n) && i < 63
    ensures var d := s[i] + carry; var c := (d + 8) / 16;
      Carrying(s[i := d - 16 * c], i + 1, c, n)
  {
    hide Val16, Shift;
    var d := s[i] + carry;
    var c := (d + 8) / 16;
    Val16Update(s, i, d - 16 * c);
    ShiftAdd(4 * i, carry, -16 * c);
    ShiftNegate(4 * i, 16 * c);
    ShiftFour(4 * i, c);
  }

  /** The result: digits of -8 to 7, worth the scalar, below a top digit that may be larger. */
  ghost predicate Recoded16(s: seq<int>, a: seq<uint8>) {
    && |s| == 64 && |a| == 32
    && (forall j | 0 <= j < 63 :: -8 <= s[j] <= 7) && 0 <= s[63] <= 16
    && Val16(s) == Value(a)
  }

  lemma LastCarry(s: seq<int>, carry: int, a: seq<uint8>)
    requires |a| == 32 && Carrying(s, 63, carry, Value(a))
    ensures Recoded16(s[63 := s[63] + carry], a)
  {
    hide Val16, Shift;
    Val16Update(s, 63, s[63] + carry);
  }

  // ----- when the top digit fits -----

  /** The number whose n digits are all one. */
  function Ones(n: nat): nat {
    if n == 0 then 0 else 1 + 16 * Ones(n - 1)
  }

  lemma {:induction false} OnesValue(n: nat)
    ensures 15 * Ones(n) + 1 == Shift(4 * n, 1)
  {
    if n > 0 {
      OnesValue(n - 1);
      ShiftFour(4 * (n - 1), 1);
    }
  }

  lemma {:induction false} DigitsBound(s: seq<int>)
    requires forall j | 0 <= j < |s| :: -8 <= s[j] <= 7
    ensures -8 * Ones(|s|) <= Val16(s) <= 7 * Ones(|s|)
  {
    if s != [] {
      DigitsBound(s[1..]);
    }
  }

  /** The largest scalar whose top digit is at most eight: 8 * 16^63, and sevens below. */
  function Largest(): nat
  {
    ShiftMonotone(252, 0, 8);
    ShiftZero(252);
    Shift(252, 8) + 7 * Ones(63)
  }

  lemma TopDigitFits(s: seq<int>, a: seq<uint8>)
    requires Recoded16(s, a)
    ensures s[63] <= 8 <==> Value(a) <= Largest()
  {
    hide Shift, Ones, Value, Val16;
    assert s == s[..63] + [s[63]];
    Val16Append(s[..63], [s[63]]);
    Val16One(s[63]);
    DigitsBound(s[..63]);
    OnesValue(63);
    if s[63] <= 8 {
      ShiftMonotone(252, s[63], 8);
    } else {
      ShiftMonotone(252, 9, s[63]);
      ShiftAdd(252, 8, 1);
    }
  }

  lemma Val16One(d: int)
    ensures Val16([d]) == d
  {
  }

  lemma {:induction false} ValueTop(a: seq<uint8>)
    requires a != []
    ensures Value(a) < Shift(8 * (|a| - 1), 1 + a[|a| - 1] as int)
  {
    if |a| > 1 {
      ValueTop(a[1..]);
      var k, x := 8 * (|a| - 2), 1 + a[|a| - 1] as int;
      ShiftFour(k, x);
      ShiftFour(k + 4, x);
    }
  }

  /** Every scalar below 2^255 fits. */
  lemma ClampedFits(a: seq<uint8>)
    requires |a| == 32 && a[31] <= 127
    ensures Value(a) <= Largest()
  {
    hide Shift, Ones, Value;
    ValueTop(a);
    ShiftMonotone(248, 1 + a[31] as int, 128);
    ShiftFour(248, 8);
  }

  method Recode(e: array<int>, a: seq<uint8>)
    requires e.Length == 64 && |a| == 32
    modifies e
    ensures Recoded16(e[..], a)
  {
    hide Val16, Shift, Value;
    for i := 0 to 32
      invariant forall j | 0 <= j < 2 * i :: e[j] == Nibbles(a)[j]
    {
      e[2 * i + 0] := a[i] % 16;
      e[2 * i + 1] := a[i] / 16;
    }
    assert e[..] == Nibbles(a);
    NibblesValue(a);
    ShiftZero(0);
    var carry := 0;
    for i := 0 to 63
      invariant Carrying(e[..], i, carry, Value(a))
    {
      ghost var s := e[..];
      CarryStep(s, i, carry, Value(a));
      e[i] := e[i] + carry;
      carry := e[i] + 8;
      carry := carry / 16;
      e[i] := e[i] - 16 * carry;
      assert e[..] == s[i := e[i]];
    }
    LastCarry(e[..], carry, a);
    ghost var t := e[..];
    e[63] := e[63] + carry;
    assert e[..] == t[63 := t[63] + carry];
  }
}
