/** Numbers written as little-endian digits, in base two, sixteen and 256. */
module Digits {
  import opened MachineInts

  /** x times 2^k. */
  function Shift(k: nat, x: int): int {
    if k == 0 then x else Shift(k - 1, 2 * x)
  }

  lemma {:induction false} ShiftAdd(k: nat, x: int, y: int)
    ensures Shift(k, x + y) == Shift(k, x) + Shift(k, y)
    decreases k
  {
    if k > 0 {
      ShiftAdd(k - 1, 2 * x, 2 * y);
    }
  }

  lemma {:induction false} ShiftZero(k: nat)
    ensures Shift(k, 0) == 0
  {
    if k > 0 {
      ShiftZero(k - 1);
    }
  }

  lemma {:induction false} ShiftNegate(k: nat, x: int)
    ensures Shift(k, -x) == -Shift(k, x)
    decreases k
  {
    if k > 0 {
      ShiftNegate(k - 1, 2 * x);
    }
  }

  lemma {:induction false} ShiftShift(j: nat, k: nat, x: int)
    ensures Shift(j + k, x) == Shift(j, Shift(k, x))
    decreases k
  {
    if k > 0 {
      assert j + k - 1 == j + (k - 1);
      ShiftShift(j, k - 1, 2 * x);
    }
  }

  lemma {:induction false} ShiftMonotone(k: nat, x: int, y: int)
    requires x <= y
    ensures Shift(k, x) <= Shift(k, y)
    decreases k
  {
    if k > 0 {
      ShiftMonotone(k - 1, 2 * x, 2 * y);
    }
  }

  /** The value of binary digits, least significant first; digits may be any integers. */
  function Val(s: seq<int>): int {
    if s == [] then 0 else s[0] + 2 * Val(s[1..])
  }

  lemma {:induction false} ValUpdate(s: seq<int>, k: nat, v: int)
    requires k < |s|
    ensures Val(s[k := v]) == Val(s) + Shift(k, v - s[k])
    decreases k
  {
    if k == 0 {
      assert s[0 := v][1..] == s[1..];
    } else {
      assert s[k := v][1..] == s[1..][k - 1 := v];
      ValUpdate(s[1..], k - 1, v);
      ShiftDouble(k - 1, v - s[k]);
    }
  }

  lemma {:induction false} ShiftDouble(k: nat, x: int)
    ensures Shift(k, 2 * x) == 2 * Shift(k, x) == Shift(k + 1, x)
  {
    ShiftAdd(k, x, x);
  }

  lemma {:induction false} ValAppend(s: seq<int>, t: seq<int>)
    ensures Val(s + t) == Val(s) + Shift(|s|, Val(t))
    decreases |s|
  {
    if s == [] {
      assert s + t == t;
    } else {
      assert (s + t)[1..] == s[1..] + t;
      ValAppend(s[1..], t);
      ShiftDouble(|s| - 1, Val(t));
    }
  }

  /** Exchanging the digits from k on. */
  lemma ValTail(s: seq<int>, k: nat, t: seq<int>)
    requires k <= |s|
    ensures Val(s[..k] + t) == Val(s) + Shift(k, Val(t) - Val(s[k..]))
  {
    hide Val, Shift;
    assert s[..k] + s[k..] == s;
    ValAppend(s[..k], s[k..]);
    ValAppend(s[..k], t);
    ShiftAdd(k, Val(t), -Val(s[k..]));
    ShiftNegate(k, Val(s[k..]));
  }

  /** The number that bytes stand for, least significant first. */
  function Value(a: seq<uint8>): nat {
    if a == [] then 0 else a[0] + 256 * Value(a[1..])
  }

  lemma ValueLow(a: seq<uint8>)
    requires a != []
    ensures Value(a) % 8 == a[0] % 8
  {
    assert Value(a) == a[0] + 8 * (32 * Value(a[1..]));
  }

  /** The last byte is the most significant. */
  lemma {:induction false} ValueLast(a: seq<uint8>)
    requires a != []
    ensures Value(a) == Value(a[..|a| - 1]) + Shift(8 * (|a| - 1), a[|a| - 1])
  {
    if |a| > 1 {
      ValueLast(a[1..]);
      assert a[1..][..|a| - 2] == a[..|a| - 1][1..];
      ShiftByte(8 * (|a| - 2), a[|a| - 1]);
    }
  }

  lemma ShiftByte(k: nat, x: int)
    ensures Shift(k + 8, x) == 256 * Shift(k, x)
  {
    ShiftShift(k, 8, x);
    ShiftEight(x);
    ShiftDouble(k, x);
    ShiftDouble(k, 2 * x);
    ShiftDouble(k, 4 * x);
    ShiftDouble(k, 8 * x);
    ShiftDouble(k, 16 * x);
    ShiftDouble(k, 32 * x);
    ShiftDouble(k, 64 * x);
    ShiftDouble(k, 128 * x);
  }

  lemma {:induction false} ValueBound(a: seq<uint8>)
    ensures Value(a) < Shift(8 * |a|, 1)
  {
    if a != [] {
      ValueBound(a[1..]);
      ShiftByte(8 * (|a| - 1), 1);
    }
  }

  function BitOf(b: nat, j: nat): int {
    if j == 0 then b % 2 else BitOf(b / 2, j - 1)
  }

  /** The low n bits of b. */
  function BitsOf(b: nat, n: nat): seq<int> {
    if n == 0 then [] else [b % 2] + BitsOf(b / 2, n - 1)
  }

  lemma {:induction false} BitsOfAt(b: nat, n: nat, j: nat)
    requires j < n
    ensures |BitsOf(b, n)| == n && BitsOf(b, n)[j] == BitOf(b, j)
    decreases n
  {
    if j > 0 {
      BitsOfAt(b / 2, n - 1, j - 1);
    } else if n > 1 {
      BitsOfAt(b / 2, n - 1, 0);
    }
  }

  lemma {:induction false} ValBits(b: nat, n: nat)
    requires b < Shift(n, 1)
    ensures Val(BitsOf(b, n)) == b && |BitsOf(b, n)| == n
    decreases n
  {
    if n > 0 {
      ShiftDouble(n - 1, 1);
      ValBits(b / 2, n - 1);
      assert BitsOf(b, n)[1..] == BitsOf(b / 2, n - 1);
    }
  }

  /** Bit i of a byte string. */
  function ScalarBit(a: seq<uint8>, i: nat): int
    requires i < 8 * |a|
  {
    BitOf(a[i / 8], i % 8)
  }

  function ScalarBits(a: seq<uint8>): (s: seq<int>)
    ensures |s| == 8 * |a|
  {
    seq(8 * |a|, i requires 0 <= i < 8 * |a| => ScalarBit(a, i))
  }

  /** The bits of the first byte come first. */
  lemma FirstByteBits(a: seq<uint8>)
    requires a != []
    ensures |BitsOf(a[0], 8)| == 8 && ScalarBits(a) == BitsOf(a[0], 8) + ScalarBits(a[1..])
  {
    hide BitsOf, BitOf;
    var s, low := ScalarBits(a), BitsOf(a[0], 8);
    forall j: nat | j < 8 ensures |low| == 8 && s[j] == low[j] {
      BitsOfAt(a[0], 8, j);
    }
    BitsOfAt(a[0], 8, 0);
    forall j: nat | 8 <= j < |s| ensures s[j] == ScalarBits(a[1..])[j - 8] {
      NextByte(j);
    }
  }

  lemma NextByte(j: nat)
    requires j >= 8
    ensures (j - 8) / 8 == j / 8 - 1 && (j - 8) % 8 == j % 8
  {
  }

  /** The bits of a byte string have its value. */
  lemma {:induction false} ValScalarBits(a: seq<uint8>)
    ensures Val(ScalarBits(a)) == Value(a)
  {
    hide BitsOf, ScalarBits, Shift;
    if a == [] {
      assert ScalarBits(a) == [];
    } else {
      FirstByteBits(a);
      ShiftEight(1);
      ValBits(a[0], 8);
      ValAppend(BitsOf(a[0], 8), ScalarBits(a[1..]));
      ValScalarBits(a[1..]);
      ShiftEight(Value(a[1..]));
    }
  }

  lemma ShiftEight(x: int)
    ensures Shift(8, x) == 256 * x
  {
    hide Shift;
    ShiftNone(x);
    ShiftDouble(0, x);
    ShiftDouble(1, x);
    ShiftDouble(2, x);
    ShiftDouble(3, x);
    ShiftDouble(4, x);
    ShiftDouble(5, x);
    ShiftDouble(6, x);
    ShiftDouble(7, x);
  }

  lemma ShiftNone(x: int)
    ensures Shift(0, x) == x
  {
  }

  lemma BitRange(b: nat, j: nat)
    ensures 0 <= BitOf(b, j) <= 1
  {
  }
}
