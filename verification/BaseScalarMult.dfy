/** a B from a table of multiples of the base point: odd digits, four doublings, even digits. */
module BaseScalarMult {
  import opened MachineInts
  import opened Digits
  import opened Radix16
  import opened PointGroup
  import opened TableSelect

  /** What the table entries stand for: base[pos][j] is (j + 1) 256^pos B, and negating the limbs
      of an entry negates its point. */
  ghost predicate TableOk<P(!new)>(g: Group<P>, base: seq<seq<Precomp>>, point: Precomp -> P, b0: P) {
    && |base| == 32 && (forall pos | 0 <= pos < 32 :: |base[pos]| == 8)
    && point(Neutral()) == g.zero
    && forall pos, j | 0 <= pos < 32 && 0 <= j < 8 :: EntryOk(g, base[pos][j], point, Shift(8 * pos, j + 1), b0)
  }

  ghost predicate EntryOk<P(!new)>(g: Group<P>, u: Precomp, point: Precomp -> P, n: int, b0: P) {
    point(u) == Multiple(g, n, b0) && point(Minus(u)) == g.neg(Multiple(g, n, b0))
  }

  /** What a digit contributes: select knows no entry for digits beyond eight. */
  function Effective(d: int): int {
    if -8 <= d <= 8 then d else 0
  }

  lemma ChosenPoint<P(!new)>(g: Group<P>, base: seq<seq<Precomp>>, point: Precomp -> P, b0: P, pos: nat, d: int)
    requires IsGroup(g) && TableOk(g, base, point, b0) && pos < 32 && -8 <= d <= 16
    ensures point(Chosen(base[pos], d)) == Multiple(g, Shift(8 * pos, Effective(d)), b0)
  {
    hide IsGroup, Multiple, Neutral, Minus, Shift;
    if 1 <= d <= 8 {
      assert EntryOk(g, base[pos][d - 1], point, Shift(8 * pos, d - 1 + 1), b0);
    } else if d < 0 {
      var m := -d;
      assert EntryOk(g, base[pos][m - 1], point, Shift(8 * pos, m - 1 + 1), b0);
      Negate(g, Shift(8 * pos, m), b0);
      ShiftNegate(8 * pos, m);
    } else {
      ShiftZero(8 * pos);
      MultipleOne(g, b0);
    }
  }

  /** The digits at positions off, off + 2, ... of the first n pairs, in base 256. */
  function EveryOther(s: seq<int>, off: nat, n: nat): int {
    if n == 0 || 2 * n + off > |s| + 1 then 0
    else EveryOther(s, off, n - 1) + Shift(8 * (n - 1), s[2 * (n - 1) + off])
  }

  /** Even digits, and sixteen times the odd ones, make up the whole number. */
  lemma {:induction false} EvenAndOdd(s: seq<int>, n: nat)
    requires 2 * n <= |s|
    ensures EveryOther(s, 0, n) + 16 * EveryOther(s, 1, n) == Val16(s[..2 * n])
    decreases n
  {
    if n > 0 {
      EvenAndOdd(s, n - 1);
      var k := 2 * (n - 1);
      var x, y := s[k], s[k + 1];
      assert s[..2 * n] == s[..k] + [x, y];
      Val16Append(s[..k], [x, y]);
      Val16Two(x, y);
      ShiftAdd(4 * k, x, 16 * y);
      ShiftFour(4 * k, y);
    }
  }

  lemma Val16Two(x: int, y: int)
    ensures Val16([x, y]) == x + 16 * y
  {
    assert [x, y][1..] == [y];
    Val16One(y);
  }

  /** The digits with the top one made effective. */
  function Counted(e: seq<int>): seq<int>
    requires |e| == 64
  {
    e[63 := Effective(e[63])]
  }

  /** Adds, for every second digit from off on, its multiple of 256^pos B. */
  method AddEveryOther<P(!new)>(g: Group<P>, h: P, e: array<int>, off: nat, base: seq<seq<Precomp>>,
      point: Precomp -> P, ghost n: int, ghost b0: P)
    returns (r: P)
    requires IsGroup(g) && TableOk(g, base, point, b0) && h == Multiple(g, n, b0)
    requires e.Length == 64 && off <= 1 && (forall j | 0 <= j < 63 :: -8 <= e[j] <= 7) && 0 <= e[63] <= 16
    ensures r == Multiple(g, n + EveryOther(Counted(e[..]), off, 32), b0)
  {
    hide IsGroup, Multiple, TableOk, EveryOther, Shift, Chosen, AsChar;
    r := h;
    ghost var s := e[..];
    EveryOtherNone(Counted(s), off);
    TableShape(g, base, point, b0);
    for pos := 0 to 32
      invariant r == Multiple(g, n + EveryOther(Counted(s), off, pos), b0)
    {
      var d := e[2 * pos + off];
      var t := Select(base[pos], AsChar(d), d);
      ChosenPoint(g, base, point, b0, pos, d);
      EveryOtherNext(s, off, pos);
      MultipleAdd(g, n + EveryOther(Counted(s), off, pos), Shift(8 * pos, Effective(d)), b0);
      r := g.add(r, point(t));
    }
  }

  lemma TableShape<P(!new)>(g: Group<P>, base: seq<seq<Precomp>>, point: Precomp -> P, b0: P)
    requires TableOk(g, base, point, b0)
    ensures |base| == 32 && forall pos | 0 <= pos < 32 :: |base[pos]| == 8
  {
  }

  lemma EveryOtherNone(s: seq<int>, off: nat)
    ensures EveryOther(s, off, 0) == 0
  {
  }

  lemma EveryOtherNext(e: seq<int>, off: nat, pos: nat)
    requires |e| == 64 && off <= 1 && pos < 32 && (forall j | 0 <= j < 63 :: -8 <= e[j] <= 7)
    ensures EveryOther(Counted(e), off, pos + 1)
      == EveryOther(Counted(e), off, pos) + Shift(8 * pos, Effective(e[2 * pos + off]))
  {
    hide Shift;
  }

  /** For every scalar up to Largest the result is a B; beyond, the top digit is dropped. */
  method ScalarmultBase<P(!new)>(g: Group<P>, a: seq<uint8>, base: seq<seq<Precomp>>, point: Precomp -> P, ghost b0: P)
    returns (h: P)
    requires IsGroup(g) && TableOk(g, base, point, b0) && |a| == 32
    ensures Value(a) <= Largest() ==> h == Multiple(g, Value(a), b0)
    ensures Value(a) > Largest() ==>
      exists top | 9 <= top <= 16 :: h == Multiple(g, Value(a) - Shift(252, top), b0)
  {
    hide IsGroup, Multiple, TableOk, EveryOther, Value, Val16, Shift, Largest, Effective;
    var e := new int[64];
    Recode(e, a);
    ghost var s := Counted(e[..]);
    MultipleOne(g, b0);
    h := AddEveryOther(g, g.zero, e, 1, base, point, 0, b0);
    ghost var n := EveryOther(s, 1, 32);
    Double(g, n, b0);
    h := g.add(h, h);
    Double(g, 2 * n, b0);
    h := g.add(h, h);
    Double(g, 4 * n, b0);
    h := g.add(h, h);
    Double(g, 8 * n, b0);
    h := g.add(h, h);
    h := AddEveryOther(g, h, e, 0, base, point, 16 * n, b0);
    EvenAndOdd(s, 32);
    assert s[..64] == s;
    TopDigitFits(e[..], a);
    DigitsWorth(e[..], a);
  }

  lemma DigitsWorth(e: seq<int>, a: seq<uint8>)
    requires Recoded16(e, a)
    ensures Val16(Counted(e)) == Value(a) - (if e[63] <= 8 then 0 else Shift(252, e[63]))
  {
    hide Val16, Value, Shift;
    Val16Update(e, 63, Effective(e[63]));
    ShiftNegate(252, e[63]);
    ShiftZero(252);
  }
}
