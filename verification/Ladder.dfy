/** The Montgomery ladder of the key exchange, with the swap of each step put off to the next. */
module Ladder {
  import opened MachineInts
  import D = Digits
  import opened Field25519
  import opened FieldOps
  import opened FieldBytes
  import opened FieldReps
  import opened LimbMasks

  // ----- the ladder of section 5 of RFC 7748, on numbers -----

  /** Two projective x-coordinates. */
  datatype Quad = Quad(x2: int, z2: int, x3: int, z3: int)

  function Swap(q: Quad): Quad {
    Quad(q.x3, q.z3, q.x2, q.z2)
  }

  /** Doubles the first point and adds both, whose difference has x-coordinate x1. */
  function Step(x1: int, q: Quad): Quad {
    var a, b, c, d := q.x2 + q.z2, q.x2 - q.z2, q.x3 + q.z3, q.x3 - q.z3;
    var aa, bb := a * a, b * b;
    var e := aa - bb;
    var da, cb := d * a, c * b;
    Quad(aa * bb, e * (aa + 121665 * e), (da + cb) * (da + cb), x1 * ((da - cb) * (da - cb)))
  }

  function ScalarBit(e: seq<uint8>, pos: nat): int {
    if pos < 8 * |e| then D.ScalarBit(e, pos) else 0
  }

  /** The plain ladder: it branches on each bit, from bit 254 down to pos. */
  function Plain(x1: int, e: seq<uint8>, pos: nat): Quad
    decreases 255 - pos
  {
    if pos >= 255 then Quad(1, 0, x1, 1)
    else
      var q := Plain(x1, e, pos + 1);
      if ScalarBit(e, pos) == 1 then Swap(Step(x1, Swap(q))) else Step(x1, q)
  }

  /** The number in bits 254 down to pos. */
  function Prefix(e: seq<uint8>, pos: nat): int
    decreases 255 - pos
  {
    if pos >= 255 then 0 else 2 * Prefix(e, pos + 1) + ScalarBit(e, pos)
  }

  /** The points of q are k and k + 1 times the base point: isMultiple(k, x, z) says that (x : z) is the
      x-coordinate of k times the point. */
  ghost predicate HoldsMultiples(isMultiple: (int, int, int) -> bool, k: int, q: Quad) {
    isMultiple(k, q.x2, q.z2) && isMultiple(k + 1, q.x3, q.z3)
  }

  /** The step doubles the first point and adds both, and doubles the second when they are swapped. */
  ghost predicate StepMultiples(isMultiple: (int, int, int) -> bool, x1: int, k: int, q: Quad) {
    && HoldsMultiples(isMultiple, 2 * k, Step(x1, q))
    && isMultiple(2 * k + 2, Step(x1, Swap(q)).x2, Step(x1, Swap(q)).z2)
  }

  /** What doubling and differential addition are for, when x1 is the x-coordinate of the base point. */
  ghost predicate Formulas(isMultiple: (int, int, int) -> bool, x1: int) {
    && HoldsMultiples(isMultiple, 0, Quad(1, 0, x1, 1))
    && forall k, q: Quad | HoldsMultiples(isMultiple, k, q) :: StepMultiples(isMultiple, x1, k, q)
  }

  /** The differential addition does not depend on the order of the points. */
  lemma StepSymmetric(x1: int, q: Quad)
    ensures Step(x1, Swap(q)).x3 == Step(x1, q).x3 && Step(x1, Swap(q)).z3 == Step(x1, q).z3
  {
    var a, b, c, d := q.x2 + q.z2, q.x2 - q.z2, q.x3 + q.z3, q.x3 - q.z3;
    var da, cb := d * a, c * b;
    assert b * c == cb && a * d == da;
    SquareOfNegated(da - cb);
  }

  lemma SquareOfNegated(t: int)
    ensures -t * -t == t * t
  {
  }

  /** After every step the ladder holds the prefix and the prefix plus one times the point. */
  lemma {:induction false} LadderMultiples(isMultiple: (int, int, int) -> bool, x1: int, e: seq<uint8>, pos: nat)
    requires Formulas(isMultiple, x1)
    ensures HoldsMultiples(isMultiple, Prefix(e, pos), Plain(x1, e, pos))
    decreases 255 - pos
  {
    hide Step, HoldsMultiples, StepMultiples;
    if pos < 255 {
      LadderMultiples(isMultiple, x1, e, pos + 1);
      var k, q := Prefix(e, pos + 1), Plain(x1, e, pos + 1);
      assert StepMultiples(isMultiple, x1, k, q);
      SwappedStep(isMultiple, x1, k, q);
      BitIsBit(e, pos);
    }
  }

  lemma SwappedStep(isMultiple: (int, int, int) -> bool, x1: int, k: int, q: Quad)
    requires StepMultiples(isMultiple, x1, k, q)
    ensures HoldsMultiples(isMultiple, 2 * k, Step(x1, q))
    ensures HoldsMultiples(isMultiple, 2 * k + 1, Swap(Step(x1, Swap(q))))
  {
    hide Step;
    StepSymmetric(x1, q);
  }

  lemma BitIsBit(e: seq<uint8>, pos: nat)
    ensures ScalarBit(e, pos) == 0 || ScalarBit(e, pos) == 1
  {
    if pos < 8 * |e| {
      D.BitRange(e[pos / 8], pos % 8);
    }
  }

  // ----- the prefix is the clamped scalar -----

  lemma {:induction false} PrefixIsUpper(e: seq<uint8>, pos: nat)
    requires |e| == 32 && pos <= 255
    ensures Prefix(e, pos) == D.Val(D.ScalarBits(e)[pos..255])
    decreases 255 - pos
  {
    var s := D.ScalarBits(e);
    if pos < 255 {
      PrefixIsUpper(e, pos + 1);
      assert s[pos..255][1..] == s[pos + 1..255] && s[pos..255][0] == ScalarBit(e, pos);
    }
  }

  /** All 255 bits make up the scalar, when the top bit of its last byte is clear. */
  lemma PrefixIsScalar(e: seq<uint8>)
    requires |e| == 32 && e[31] < 128
    ensures Prefix(e, 0) == D.Value(e)
  {
    hide D.Val, D.Value;
    var s := D.ScalarBits(e);
    PrefixIsUpper(e, 0);
    D.ValScalarBits(e);
    assert s[255] == D.BitOf(e[31], 7);
    TopBitClear(e[31]);
    assert s == s[0..255] + [s[255]];
    D.ValAppend(s[0..255], [s[255]]);
    ZeroDigit();
    D.ShiftZero(255);
  }

  lemma TopBitClear(b: nat)
    requires b < 128
    ensures D.BitOf(b, 7) == 0
  {
    SmallBit(b, 7);
  }

  lemma {:induction false} SmallBit(b: nat, j: nat)
    requires b < D.Shift(j, 1)
    ensures D.BitOf(b, j) == 0
    decreases j
  {
    if j > 0 {
      D.ShiftDouble(j - 1, 1);
      SmallBit(b / 2, j - 1);
    }
  }

  lemma ZeroDigit()
    ensures D.Val([0]) == 0
  {
    assert [0][1..] == [];
  }

  // ----- the same on limbs -----

  /** The registers of the ladder. */
  datatype Registers = Registers(x2: Fe, z2: Fe, x3: Fe, z3: Fe)

  ghost predicate RepQuad(r: Registers, q: Quad) {
    Rep(r.x2, q.x2, OUT) && Rep(r.z2, q.z2, OUT) && Rep(r.x3, q.x3, OUT) && Rep(r.z3, q.z3, OUT)
  }

  /** One step, in the order of operations of the program. */
  method FeStep(x1: Fe, r: Registers, ghost u: int, ghost q: Quad) returns (r': Registers)
    requires Rep(x1, u, OUT) && RepQuad(r, q)
    ensures RepQuad(r', Step(u, q))
  {
    hide Rep;
    var tmp0 := Sub(r.x3, r.z3, q.x3, q.z3, OUT, OUT);
    var tmp1 := Sub(r.x2, r.z2, q.x2, q.z2, OUT, OUT);
    var x2 := Add(r.x2, r.z2, q.x2, q.z2, OUT, OUT);
    var z2 := Add(r.x3, r.z3, q.x3, q.z3, OUT, OUT);
    ghost var a, b, c, d := q.x2 + q.z2, q.x2 - q.z2, q.x3 + q.z3, q.x3 - q.z3;
    ghost var sum := 2 * OUT + 1;
    var z3 := Mul(tmp0, x2, d, a, sum, sum);
    z2 := Mul(z2, tmp1, c, b, sum, sum);
    tmp0 := Sq(tmp1, b, sum);
    tmp1 := Sq(x2, a, sum);
    ghost var da, cb, aa, bb := d * a, c * b, a * a, b * b;
    var x3 := Add(z3, z2, da, cb, OUT, OUT);
    z2 := Sub(z3, z2, da, cb, OUT, OUT);
    x2 := Mul(tmp1, tmp0, aa, bb, OUT, OUT);
    tmp1 := Sub(tmp1, tmp0, aa, bb, OUT, OUT);
    ghost var e := aa - bb;
    z2 := Sq(z2, da - cb, sum);
    z3 := Mul121666(tmp1, e, sum);
    x3 := Sq(x3, da + cb, sum);
    tmp0 := Add(tmp0, z3, bb, 121666 * e, OUT, CARRIED);
    z3 := Mul(x1, z2, u, (da - cb) * (da - cb), OUT, OUT);
    z2 := Mul(tmp1, tmp0, e, bb + 121666 * e, sum, OUT + CARRIED + 1);
    assert bb + 121666 * e == aa + 121665 * e;
    r' := Registers(x2, z2, x3, z3);
  }

  /** The two conditional swaps of the registers. */
  function SwapIf(r: Registers, b: int): Registers
    requires b == 0 || b == 1
  {
    var x, z := FeCswap(r.x2, r.x3, b), FeCswap(r.z2, r.z3, b);
    Registers(x.f, z.f, x.g, z.g)
  }

  lemma SwapIfMeaning(r: Registers, b: int)
    requires b == 0 || b == 1
    ensures SwapIf(r, b) == if b == 1 then Registers(r.x3, r.z3, r.x2, r.z2) else r
  {
    hide FeCswap;
    CswapMeaning(r.x2, r.x3, b);
    CswapMeaning(r.z2, r.z3, b);
  }

  /** The registers hold q once the pending swap is undone. */
  ghost predicate Pending(r: Registers, swap: int, q: Quad) {
    (swap == 0 || swap == 1) && RepQuad(SwapIf(r, swap), q)
  }

  /** One turn of the loop: the registers are swapped when the bit differs from the one before. Undoing
      the pending swap gives the plain ladder before the turn and after it. */
  method LazyStep(x1: Fe, e: seq<uint8>, pos: nat, r: Registers, swap: int, ghost u: int)
    returns (r': Registers, swap': int)
    requires Rep(x1, u, OUT) && pos < 255 && Pending(r, swap, Plain(u, e, pos + 1))
    ensures Pending(r', swap', Plain(u, e, pos))
  {
    hide Rep, Step, SwapIf;
    var b := ScalarBit(e, pos);
    BitIsBit(e, pos);
    var changed := if swap == b then 0 else 1;
    SwapIfMeaning(r, swap);
    SwapIfMeaning(r, changed);
    r' := SwapIf(r, changed);
    swap' := b;
    ghost var q := Plain(u, e, pos + 1);
    r' := FeStep(x1, r', u, if b == 1 then Swap(q) else q);
    SwapIfMeaning(r', swap');
  }

  /** The ladder as programmed, with the last pending swap undone at the end. */
  method LazyLadder(x1: Fe, e: seq<uint8>, ghost u: int) returns (r: Registers)
    requires Rep(x1, u, OUT)
    ensures RepQuad(r, Plain(u, e, 0))
  {
    hide Rep, Step, SwapIf;
    StartReps();
    var one := Fe(1, 0, 0, 0, 0, 0, 0, 0, 0, 0);
    r := Registers(one, Fe(0, 0, 0, 0, 0, 0, 0, 0, 0, 0), x1, one);
    var swap := 0;
    SwapIfMeaning(r, 0);
    var pos := 254;
    while pos >= 0
      invariant -1 <= pos <= 254 && Pending(r, swap, Plain(u, e, pos + 1))
    {
      r, swap := LazyStep(x1, e, pos, r, swap, u);
      pos := pos - 1;
    }
    r := SwapIf(r, swap);
  }

  lemma StartReps()
    ensures Rep(Fe(1, 0, 0, 0, 0, 0, 0, 0, 0, 0), 1, OUT) && Rep(Fe(0, 0, 0, 0, 0, 0, 0, 0, 0, 0), 0, OUT)
  {
    CongRefl(1);
    CongRefl(0);
  }

  // ----- the key exchange -----

  /** The private key with its three low bits cleared, its top bit cleared and the next one set. */
  function Clamped(k: seq<uint8>): (e: seq<uint8>)
    requires |k| == 32
    ensures |e| == 32
  {
    k[0 := k[0] - k[0] % 8][31 := k[31] % 64 + 64]
  }

  /** A clamped key is a multiple of eight between 2^254 and 2^255, and all of it is used. */
  lemma ClampedScalar(k: seq<uint8>)
    requires |k| == 32
    ensures var n := D.Value(Clamped(k)); n % 8 == 0 && D.Shift(254, 1) <= n < D.Shift(255, 1)
    ensures Prefix(Clamped(k), 0) == D.Value(Clamped(k))
  {
    hide D.Shift, D.Value, Prefix;
    var e := Clamped(k);
    PrefixIsScalar(e);
    D.ValueLow(e);
    ClampedRange(e);
  }

  lemma ClampedRange(e: seq<uint8>)
    requires |e| == 32 && 64 <= e[31] < 128
    ensures D.Shift(254, 1) <= D.Value(e) < D.Shift(255, 1)
  {
    hide D.Shift, D.Value;
    D.ValueLast(e);
    D.ValueBound(e[..31]);
    TopByte(e[31]);
    D.ShiftAdd(248, e[31], 1);
  }

  lemma TopByte(b: int)
    requires 64 <= b < 128
    ensures D.Shift(254, 1) <= D.Shift(248, b) && D.Shift(248, b + 1) <= D.Shift(255, 1)
  {
    hide D.Shift;
    D.ShiftMonotone(248, 64, b);
    D.ShiftMonotone(248, b + 1, 128);
    D.ShiftShift(248, 6, 1);
    D.ShiftShift(248, 7, 1);
    SmallShifts();
  }

  lemma SmallShifts()
    ensures D.Shift(6, 1) == 64 && D.Shift(7, 1) == 128
  {
  }

  /** The Montgomery x-coordinate of the Edwards point with this y-coordinate, (y + 1) / (1 - y). */
  function MontgomeryX(y: int): int {
    (y + 1) * Pow(1 - y, P - 2)
  }

  method ConvertKey(publicKey: seq<uint8>) returns (x1: Fe)
    requires |publicKey| == 32
    ensures Rep(x1, MontgomeryX(D.Value(publicKey) % TWO255), OUT)
  {
    hide Rep, Pow, Reduced, D.Value;
    ghost var y := D.Value(publicKey) % TWO255;
    x1 := FeFromBytes(publicKey);
    ReadReps(x1, y);
    StartReps();
    var tmp1 := Fe(1, 0, 0, 0, 0, 0, 0, 0, 0, 0);
    var tmp0 := Add(x1, tmp1, y, 1, CARRIED, OUT);
    tmp1 := Sub(tmp1, x1, 1, y, OUT, CARRIED);
    tmp1 := Invert(tmp1, 1 - y, OUT + CARRIED + 1);
    x1 := Mul(tmp0, tmp1, y + 1, Pow(1 - y, P - 2), CARRIED + OUT + 1, OUT);
  }

  lemma ReadReps(f: Fe, y: int)
    requires Reduced(f) && Cong(Val(f), y)
    ensures Rep(f, y, CARRIED)
  {
    hide Cong;
    Bounds(f);
  }

  /** The shared secret is the canonical encoding of x2 / z2, where (x2 : z2) is what the plain
      ladder gives for the clamped private key. */
  method KeyExchange(publicKey: seq<uint8>, privateKey: seq<uint8>) returns (sharedSecret: seq<uint8>)
    requires |publicKey| == 32 && |privateKey| == 32
    ensures |sharedSecret| == 32
    ensures var q := Plain(MontgomeryX(D.Value(publicKey) % TWO255), Clamped(privateKey), 0);
      D.Value(sharedSecret) == q.x2 * Pow(q.z2, P - 2) % P
  {
    hide Rep, Pow, Plain, Clamped, D.Value, MontgomeryX;
    var x1 := ConvertKey(publicKey);
    ghost var u := MontgomeryX(D.Value(publicKey) % TWO255);
    var e := Clamped(privateKey);
    ghost var q := Plain(u, e, 0);
    var r := LazyLadder(x1, e, u);
    var z2 := Invert(r.z2, q.z2, OUT);
    var x2 := Mul(r.x2, z2, q.x2, Pow(q.z2, P - 2), OUT, OUT);
    WriteReps(x2, q.x2 * Pow(q.z2, P - 2));
    sharedSecret := FeToBytes(x2);
  }

  lemma WriteReps(f: Fe, n: int)
    requires Rep(f, n, OUT)
    ensures ByteInput(f) && Val(f) % P == n % P
  {
    hide Cong;
    CongMod(Val(f), n);
  }
}
