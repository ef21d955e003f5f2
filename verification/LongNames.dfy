/** Long file names: how they are cut into directory entries and put together again. */
module LongNames {
  import opened MachineInts
  import opened FatGeometry

  type uint16 = x: int | 0 <= x < 0x1_0000

  const LLEF: uint8 := 0x40
  const AM_LFN: uint8 := 0x0F
  const MAX_LFN: nat := 255

  /** Where the thirteen characters of an entry lie. */
  const LFN_OFS: seq<nat> := [1, 3, 5, 7, 9, 14, 16, 18, 20, 22, 24, 28, 30]

  function Ofs(s: nat): (o: nat)
    requires s < 13
    ensures o == LFN_OFS[s] && 1 <= o <= 30
  {
    if s < 5 then 1 + 2 * s else if s < 11 then 4 + 2 * s else 6 + 2 * s
  }

  function Word(d: seq<uint8>, o: nat): uint16
    requires o + 1 < |d|
  {
    d[o] + 0x100 * d[o + 1] as int
  }

  /** A name that long entries can hold. */
  predicate IsName(name: seq<uint16>) {
    1 <= |name| <= MAX_LFN && forall i | 0 <= i < |name| :: name[i] != 0 && name[i] != 0xFFFF
  }

  function EntriesOf(name: seq<uint16>): nat {
    (|name| + 12) / 13
  }

  /** The name, then a zero, then filler. */
  function Unit(name: seq<uint16>, i: nat): uint16 {
    if i < |name| then name[i] else if i == |name| then 0 else 0xFFFF
  }

  /** d is long entry number ord of the name. */
  ghost predicate IsEntry(d: seq<uint8>, name: seq<uint16>, ord: nat, sum: uint8) {
    && |d| == 32 && 1 <= ord <= EntriesOf(name) <= 20
    && d[0] == ord + (if ord == EntriesOf(name) then LLEF else 0)
    && d[11] == AM_LFN && d[12] == 0 && d[13] == sum && Word(d, 26) == 0
    && forall s: nat | s < 13 :: SlotHolds(d, name, ord, s)
  }

  predicate SlotHolds(d: seq<uint8>, name: seq<uint16>, ord: nat, s: nat)
    requires |d| == 32 && s < 13 && ord >= 1
  {
    Word(d, Ofs(s)) == Unit(name, (ord - 1) * 13 + s)
  }

  // ----- writing an entry -----

  method PutLfn(lfn: array<uint16>, dir: array<uint8>, ord: nat, sum: uint8, ghost name: seq<uint16>)
    requires lfn.Length == MAX_LFN + 1 && dir.Length == 32
    requires IsName(name) && lfn[..|name|] == name && lfn[|name|] == 0
    requires 1 <= ord <= EntriesOf(name)
    modifies dir
    ensures IsEntry(dir[..], name, ord, sum)
  {
    dir[13] := sum;
    dir[11] := AM_LFN;
    dir[12] := 0;
    dir[26], dir[27] := 0, 0;
    var i := (ord - 1) * 13;
    var base := i;
    var wc: uint16 := 0;
    var s := 0;
    while s < 13
      invariant s <= 13 && (s == 0 ==> wc == 0) && base == (ord - 1) * 13
      invariant i == if base + s <= |name| then base + s else |name| + 1
      invariant s > 0 ==> wc == if base + s - 1 < |name| then name[base + s - 1] else 0xFFFF
      invariant dir[13] == sum && dir[11] == AM_LFN && dir[12] == 0 && dir[26] == dir[27] == 0
      invariant forall t: nat | t < s :: SlotHolds(dir[..], name, ord, t)
      decreases 13 - s
    {
      if wc != 0xFFFF {
        wc := lfn[i];
        i := i + 1;
      }
      assert wc == Unit(name, base + s);
      PutSlot(dir, s, wc, name, ord);
      if wc == 0 {
        wc := 0xFFFF;
      }
      s := s + 1;
    }
    var flag := 0;
    if wc == 0xFFFF || lfn[i] == 0 {
      flag := LLEF;
    }
    ghost var before := dir[..];
    dir[0] := ord + flag;
    forall t: nat | t < 13 ensures SlotHolds(dir[..], name, ord, t) {
      assert SlotHolds(before, name, ord, t);
    }
  }

  method PutSlot(dir: array<uint8>, s: nat, wc: uint16, ghost name: seq<uint16>, ghost ord: nat)
    requires dir.Length == 32 && s < 13 && ord >= 1 && wc == Unit(name, (ord - 1) * 13 + s)
    requires forall t: nat | t < s :: SlotHolds(dir[..], name, ord, t)
    modifies dir
    ensures forall t: nat | t <= s :: SlotHolds(dir[..], name, ord, t)
    ensures forall o | o in {11, 12, 13, 26, 27} :: dir[o] == old(dir[o])
  {
    hide Unit;
    ghost var before := dir[..];
    OfsPlace(s);
    dir[Ofs(s)], dir[Ofs(s) + 1] := wc % 0x100, wc / 0x100;
    forall t: nat | t <= s ensures SlotHolds(dir[..], name, ord, t) {
      if t < s {
        assert SlotHolds(before, name, ord, t);
        OfsApart(t, s);
      }
    }
  }

  /** The characters lie beside the other fields. */
  lemma OfsPlace(s: nat)
    requires s < 13
    ensures Ofs(s) + 1 < 11 || (13 < Ofs(s) && Ofs(s) + 1 < 26) || 27 < Ofs(s)
  {
  }

  lemma OfsApart(s: nat, t: nat)
    requires s < t < 13
    ensures Ofs(s) + 2 <= Ofs(t)
  {
  }

  // ----- picking the characters out of an entry -----

  /** The buffer of the reader. */
  type Buffer = b: seq<uint16> | |b| == MAX_LFN + 1 witness seq(MAX_LFN + 1, i => 0)

  /** ~LLEF */
  function OrderOf(b: uint8): nat {
    if b / 0x40 % 2 == 1 then b - 0x40 else b
  }

  predicate IsLast(b: uint8) {
    b / 0x40 % 2 == 1
  }

  /** The characters from slot s on go to the buffer from i on; wc is the last one stored. After a zero
      only filler may follow. */
  function PickFrom(b: Buffer, d: seq<uint8>, i: nat, s: nat, wc: uint16): (r: (bool, Buffer))
    requires |d| == 32 && s <= 13
    decreases 13 - s
  {
    if s == 13 then
      if IsLast(d[0]) && wc != 0 then if i >= MAX_LFN + 1 then (false, b) else (true, b[i := 0]) else (true, b)
    else
      var uc := Word(d, Ofs(s));
      if wc != 0 then
        if i >= MAX_LFN + 1 then (false, b) else PickFrom(b[i := uc], d, i + 1, s + 1, uc)
      else if uc != 0xFFFF then (false, b)
      else PickFrom(b, d, i, s + 1, wc)
  }

  function Pick(b: Buffer, d: seq<uint8>): (bool, Buffer)
    requires |d| == 32
  {
    // An order of zero gives an offset far beyond the buffer, as the subtraction wraps.
    if Word(d, 26) != 0 || OrderOf(d[0]) == 0 then (false, b) else PickFrom(b, d, (OrderOf(d[0]) - 1) * 13, 0, 1)
  }

  method PickLfn(lfnbuf: array<uint16>, d: seq<uint8>) returns (ok: bool)
    requires lfnbuf.Length == MAX_LFN + 1 && |d| == 32
    modifies lfnbuf
    ensures (ok, lfnbuf[..]) == Pick(old(lfnbuf[..]), d)
  {
    if Word(d, 26) != 0 {
      return false;
    }
    if OrderOf(d[0]) == 0 {
      return false;
    }
    var i: nat := (OrderOf(d[0]) - 1) * 13;
    var wc: uint16 := 1;
    for s := 0 to 13
      invariant PickFrom(lfnbuf[..], d, i, s, wc) == Pick(old(lfnbuf[..]), d)
    {
      var uc := Word(d, Ofs(s));
      if wc != 0 {
        if i >= MAX_LFN + 1 {
          return false;
        }
        ghost var before := lfnbuf[..];
        lfnbuf[i] := uc;
        assert lfnbuf[..] == before[i := uc];
        wc := uc;
        i := i + 1;
      } else {
        if uc != 0xFFFF {
          return false;
        }
      }
    }
    if IsLast(d[0]) && wc != 0 {
      if i >= MAX_LFN + 1 {
        return false;
      }
      ghost var before := lfnbuf[..];
      lfnbuf[i] := 0;
      assert lfnbuf[..] == before[i := 0];
    }
    ok := true;
  }

  // ----- reading a directory -----

  /** The check sum of a short name: rotate right, add. */
  function SumSfn(d: seq<uint8>, n: nat): (sum: uint8)
    requires n <= |d|
  {
    if n == 0 then 0 else
      var sum := SumSfn(d, n - 1);
      (sum / 2 + sum % 2 * 0x80 + d[n - 1]) % 0x100
  }

  /** What the reader knows: the order it expects next (0xFF for none), the check sum, the characters. */
  datatype Reader = Reader(ord: uint8, sum: uint8, buf: Buffer)

  /** An entry is deleted, names the directory itself, or is a volume label. */
  predicate Skipped(d: seq<uint8>)
    requires |d| == 32
  {
    d[0] == 0xE5 || d[0] == 0x2E || d[11] % 0x20 == 0x08
  }

  predicate IsLong(d: seq<uint8>)
    requires |d| == 32
  {
    d[11] % 0x40 == AM_LFN
  }

  /** The reader goes past an entry that is not a short one. */
  function ReadEntry(r: Reader, d: seq<uint8>): Reader
    requires |d| == 32
  {
    if Skipped(d) then r.(ord := 0xFF)
    else if !IsLong(d) then r
    else
      var order := OrderOf(d[0]);
      var started := if IsLast(d[0]) then r.(ord := order, sum := d[13]) else r;
      if (if IsLast(d[0]) then order else d[0]) == started.ord && started.sum == d[13] then
        var p := Pick(started.buf, d);
        started.(ord := if p.0 then (started.ord - 1) % 0x100 else 0xFF, buf := p.1)
      else started.(ord := 0xFF)
  }

  /** The short entry found next has a long name. */
  predicate HasLongName(r: Reader, d: seq<uint8>)
    requires |d| >= 11
  {
    r.ord == 0 && r.sum == SumSfn(d, 11)
  }

  // ----- what was written is read -----

  function Min(a: int, b: int): int {
    if a < b then a else b
  }

  /** Before slot s is picked, i is the place of the next character and wc the one before it. */
  predicate PickState(name: seq<uint16>, ord: nat, i: nat, s: nat, wc: uint16) {
    && ord >= 1 && i == Min((ord - 1) * 13 + s, |name| + 1)
    && (s == 0 ==> wc == 1)
    && (s > 0 ==> wc == if (ord - 1) * 13 + s - 1 < |name| then name[(ord - 1) * 13 + s - 1] else 0)
  }

  /** Picking from slot s on stores the rest of the entry's characters, and the terminator if this is
      the last entry. */
  lemma {:induction false} PickSlots(b: Buffer, d: seq<uint8>, name: seq<uint16>, ord: nat, sum: uint8, i: nat, s: nat,
      wc: uint16, j: nat)
    requires IsName(name) && IsEntry(d, name, ord, sum) && s <= 13 && j <= MAX_LFN && PickState(name, ord, i, s, wc)
    ensures var r := PickFrom(b, d, i, s, wc);
      r.0 && r.1[j] == Picked(b, name, ord, i, j)
    decreases 13 - s
  {
    hide IsName, IsEntry, Ofs, Word, OrderOf, IsLast, Skipped, IsLong, Picked, PickState, Unit, Min, EntriesOf;
    EntryFlags(d, name, ord, sum);
    EntryByte(d, name, ord, sum);
    if s < 13 {
      SlotUnit(d, name, ord, sum, s);
      var uc := Word(d, Ofs(s));
      NextSlot(b, name, ord, i, s, wc, uc, j);
      if wc != 0 {
        PickSlots(b[i := uc], d, name, ord, sum, i + 1, s + 1, uc, j);
      } else {
        PickSlots(b, d, name, ord, sum, i, s + 1, wc, j);
      }
    } else {
      PickedEnd(b, name, ord, i, wc, j);
    }
  }

  lemma NextSlot(b: Buffer, name: seq<uint16>, ord: nat, i: nat, s: nat, wc: uint16, uc: uint16, j: nat)
    requires IsName(name) && 1 <= ord <= EntriesOf(name) && s < 13 && j <= MAX_LFN && PickState(name, ord, i, s, wc)
    requires uc == Unit(name, (ord - 1) * 13 + s)
    ensures wc != 0 ==> i <= MAX_LFN && PickState(name, ord, i + 1, s + 1, uc)
    ensures wc != 0 ==> Picked(b[i := uc], name, ord, i + 1, j) == Picked(b, name, ord, i, j)
    ensures wc == 0 ==> uc == 0xFFFF && PickState(name, ord, i, s + 1, wc)
  {
    hide Picked;
    if wc != 0 {
      LastFits(name, ord);
      PickedStep(b, name, ord, i, uc, j);
    }
  }

  lemma PickedStep(b: Buffer, name: seq<uint16>, ord: nat, i: nat, uc: uint16, j: nat)
    requires j <= MAX_LFN && IsName(name) && i <= |name| && i < ord * 13 && uc == Unit(name, i)
    requires 1 <= ord <= EntriesOf(name)
    ensures Picked(b[i := uc], name, ord, i + 1, j) == Picked(b, name, ord, i, j)
  {
  }

  lemma PickedEnd(b: Buffer, name: seq<uint16>, ord: nat, i: nat, wc: uint16, j: nat)
    requires j <= MAX_LFN && IsName(name) && 1 <= ord <= EntriesOf(name) && PickState(name, ord, i, 13, wc)
    ensures ord == EntriesOf(name) && wc != 0 ==> i <= MAX_LFN && b[i := 0][j] == Picked(b, name, ord, i, j)
    ensures ord < EntriesOf(name) || wc == 0 ==> b[j] == Picked(b, name, ord, i, j)
  {
  }

  lemma SlotUnit(d: seq<uint8>, name: seq<uint16>, ord: nat, sum: uint8, s: nat)
    requires IsEntry(d, name, ord, sum) && s < 13
    ensures Word(d, Ofs(s)) == Unit(name, (ord - 1) * 13 + s)
  {
    assert SlotHolds(d, name, ord, s);
  }

  /** What the buffer holds at j after the characters from i on have been stored. */
  function Picked(b: Buffer, name: seq<uint16>, ord: nat, i: nat, j: int): int
    requires 0 <= j <= MAX_LFN
  {
    if i <= j < Min(ord * 13, |name|) then name[j]
    else if i <= j && j == |name| && ord == EntriesOf(name) then 0
    else b[j]
  }

  lemma EntryFlags(d: seq<uint8>, name: seq<uint16>, ord: nat, sum: uint8)
    requires IsEntry(d, name, ord, sum)
    ensures IsLast(d[0]) == (ord == EntriesOf(name)) && OrderOf(d[0]) == ord
    ensures !Skipped(d) && IsLong(d)
    ensures ord < EntriesOf(name) ==> ord * 13 < |name|
  {
  }

  /** The buffer holds the name from position k on, and its terminator. */
  ghost predicate Held(b: Buffer, name: seq<uint16>, k: int) {
    |name| <= MAX_LFN && b[|name|] == 0 && forall j | 0 <= j < |name| && k <= j :: b[j] == name[j]
  }

  lemma PickEntry(b: Buffer, d: seq<uint8>, name: seq<uint16>, ord: nat, sum: uint8)
    requires IsName(name) && IsEntry(d, name, ord, sum)
    requires ord == EntriesOf(name) || Held(b, name, ord * 13)
    ensures Pick(b, d).0 && Held(Pick(b, d).1, name, (ord - 1) * 13)
  {
    hide PickFrom, SlotHolds;
    EntryFlags(d, name, ord, sum);
    assert PickState(name, ord, (ord - 1) * 13, 0, 1);
    var i := (ord - 1) * 13;
    LastFits(name, ord);
    var r := PickFrom(b, d, i, 0, 1);
    PickSlots(b, d, name, ord, sum, i, 0, 1, |name|);
    forall j | 0 <= j < |name| && i <= j ensures r.1[j] == name[j] {
      PickSlots(b, d, name, ord, sum, i, 0, 1, j);
    }
  }

  lemma LastFits(name: seq<uint16>, ord: nat)
    requires IsName(name) && 1 <= ord <= EntriesOf(name)
    ensures (ord - 1) * 13 < |name| && (ord == EntriesOf(name) ==> |name| <= ord * 13)
  {
  }

  /** The reader goes past the entries in the order in which they lie in the directory. */
  function ReadEntries(r: Reader, ds: seq<seq<uint8>>): Reader
    requires forall d | d in ds :: |d| == 32
  {
    if ds == [] then r else ReadEntry(ReadEntries(r, ds[..|ds| - 1]), ds[|ds| - 1])
  }

  /** ds are all long entries of the name, the last one first. */
  ghost predicate AreEntries(ds: seq<seq<uint8>>, name: seq<uint16>, sum: uint8) {
    |ds| == EntriesOf(name) && forall j | 0 <= j < |ds| :: IsEntry(ds[j], name, |ds| - j, sum)
  }

  lemma EntriesAre32(ds: seq<seq<uint8>>, name: seq<uint16>, sum: uint8)
    requires AreEntries(ds, name, sum)
    ensures forall d | d in ds :: |d| == 32
  {
    forall d | d in ds ensures |d| == 32 {
      var j :| 0 <= j < |ds| && ds[j] == d;
      assert IsEntry(ds[j], name, |ds| - j, sum);
    }
  }

  /** One entry, read when it is the last of the name, or the one that is expected next. */
  lemma ReadOne(t: Reader, d: seq<uint8>, name: seq<uint16>, n: nat, sum: uint8)
    requires IsName(name) && IsEntry(d, name, n, sum)
    requires n == EntriesOf(name) || (t.ord == n && t.sum == sum && Held(t.buf, name, n * 13))
    ensures var u := ReadEntry(t, d); u.ord == n - 1 && u.sum == sum && Held(u.buf, name, (n - 1) * 13)
  {
    hide IsEntry, Held, Pick, Skipped, IsLong, IsLast, OrderOf;
    EntryFlags(d, name, n, sum);
    EntryByte(d, name, n, sum);
    PickEntry(t.buf, d, name, n, sum);
  }

  /** After the first k entries the reader expects the next one, and holds the end of the name. */
  lemma {:induction false} ReadSome(r: Reader, ds: seq<seq<uint8>>, name: seq<uint16>, sum: uint8, k: nat)
    requires IsName(name) && AreEntries(ds, name, sum) && (forall d | d in ds :: |d| == 32) && 1 <= k <= |ds|
    ensures var t := ReadEntries(r, ds[..k]);
      t.ord == |ds| - k && t.sum == sum && Held(t.buf, name, (|ds| - k) * 13)
    decreases k
  {
    hide IsEntry, Held, ReadEntry;
    assert IsEntry(ds[k - 1], name, |ds| - (k - 1), sum);
    assert ds[..k][..k - 1] == ds[..k - 1] && ds[..k][k - 1] == ds[k - 1];
    if k > 1 {
      ReadSome(r, ds, name, sum, k - 1);
    }
    ReadOne(ReadEntries(r, ds[..k - 1]), ds[k - 1], name, |ds| - (k - 1), sum);
  }

  lemma EntryByte(d: seq<uint8>, name: seq<uint16>, ord: nat, sum: uint8)
    requires IsEntry(d, name, ord, sum)
    ensures |d| == 32 && d[13] == sum && 1 <= ord <= EntriesOf(name) <= 20
    ensures d[0] == ord + (if ord == EntriesOf(name) then LLEF else 0)
  {
  }

  /** Whatever the reader has seen before: reading the long entries of a name, and then a short entry
      with the check sum they were written with, gives exactly that name. */
  lemma LongNameRead(r: Reader, ds: seq<seq<uint8>>, name: seq<uint16>, sum: uint8, short: seq<uint8>)
    requires IsName(name) && AreEntries(ds, name, sum) && |short| == 32 && SumSfn(short, 11) == sum
    ensures forall d | d in ds :: |d| == 32
    ensures var t := ReadEntries(r, ds);
      HasLongName(t, short) && t.buf[..|name|] == name && t.buf[|name|] == 0
  {
    hide ReadEntry, SumSfn, IsEntry;
    EntriesAre32(ds, name, sum);
    ReadSome(r, ds, name, sum, |ds|);
    assert ds[..|ds|] == ds;
  }

  // ----- foreign check sums -----

  /** ds are all long entries of the name, the last one first, each with a check sum of its own. */
  ghost predicate AreMixed(ds: seq<seq<uint8>>, name: seq<uint16>, sums: seq<uint8>) {
    |ds| == EntriesOf(name) == |sums| && forall j | 0 <= j < |ds| :: IsEntry(ds[j], name, |ds| - j, sums[j])
  }

  ghost predicate AllAre(sums: seq<uint8>, sum: uint8) {
    forall x | x in sums :: x == sum
  }

  /** An entry with another check sum than the one before, or behind one that was not expected, makes the reader
      forget the name. */
  lemma WrongSum(r: Reader, d: seq<uint8>, name: seq<uint16>, ord: nat, sum: uint8)
    requires IsEntry(d, name, ord, sum) && ord < EntriesOf(name) && (r.sum != sum || r.ord == 0xFF)
    ensures ReadEntry(r, d).ord == 0xFF
  {
    hide IsEntry, Pick;
    EntryFlags(d, name, ord, sum);
    EntryByte(d, name, ord, sum);
  }

  /** After the first k entries the reader expects the next one if all had the same check sum, and none otherwise. */
  lemma {:induction false} ReadMixed(r: Reader, ds: seq<seq<uint8>>, name: seq<uint16>, sums: seq<uint8>, k: nat)
    requires IsName(name) && AreMixed(ds, name, sums) && (forall d | d in ds :: |d| == 32) && 1 <= k <= |ds|
    ensures var t := ReadEntries(r, ds[..k]);
      if AllAre(sums[..k], sums[0]) then t.ord == |ds| - k && t.sum == sums[0] && Held(t.buf, name, (|ds| - k) * 13)
      else t.ord == 0xFF
    decreases k
  {
    hide IsEntry, Held, ReadEntry;
    var n := |ds| - (k - 1);
    assert IsEntry(ds[k - 1], name, n, sums[k - 1]);
    assert ds[..k][..k - 1] == ds[..k - 1] && ds[..k][k - 1] == ds[k - 1];
    var t := ReadEntries(r, ds[..k - 1]);
    if k == 1 {
      ReadOne(t, ds[0], name, n, sums[0]);
    } else {
      ReadMixed(r, ds, name, sums, k - 1);
      SameSoFar(sums, k);
      if AllAre(sums[..k], sums[0]) {
        ReadOne(t, ds[k - 1], name, n, sums[k - 1]);
      } else {
        WrongSum(t, ds[k - 1], name, n, sums[k - 1]);
      }
    }
  }

  lemma SameSoFar(sums: seq<uint8>, k: nat)
    requires 2 <= k <= |sums|
    ensures AllAre(sums[..k], sums[0]) <==> AllAre(sums[..k - 1], sums[0]) && sums[k - 1] == sums[0]
  {
    var before, all := sums[..k - 1], sums[..k];
    assert all == before + [sums[k - 1]];
    assert all[k - 1] == sums[k - 1];
    if AllAre(all, sums[0]) {
      forall x | x in before ensures x == sums[0] {
        assert x in all;
      }
      assert AllAre(before, sums[0]);
      assert all[k - 1] in all;
      assert sums[k - 1] == sums[0];
    }
  }

  /** A whole set of entries is reported as the name of the short entry behind it exactly when every one of them
      carries the check sum of that entry. */
  lemma ReportedExactly(r: Reader, ds: seq<seq<uint8>>, name: seq<uint16>, sums: seq<uint8>, short: seq<uint8>)
    requires IsName(name) && AreMixed(ds, name, sums) && (forall d | d in ds :: |d| == 32) && |short| == 32
    ensures HasLongName(ReadEntries(r, ds), short) <==> AllAre(sums, SumSfn(short, 11))
  {
    hide ReadEntry, SumSfn, IsEntry, Held;
    LastFits(name, 1);
    ReadMixed(r, ds, name, sums, |ds|);
    assert ds[..|ds|] == ds && sums[..|ds|] == sums && sums[0] in sums;
  }

  // ----- the loops over a directory -----

  /** The long entries that dir_register writes, from the last part of the name to the first. */
  method PutEntries(lfn: array<uint16>, sum: uint8, ghost name: seq<uint16>) returns (ds: seq<seq<uint8>>)
    requires lfn.Length == MAX_LFN + 1 && IsName(name) && lfn[..|name|] == name && lfn[|name|] == 0
    ensures AreEntries(ds, name, sum)
  {
    hide IsEntry;
    var len := 0;
    while lfn[len] != 0
      invariant 0 <= len <= |name|
      decreases |name| - len
    {
      assert lfn[len] == lfn[..|name|][len] || len == |name|;
      len := len + 1;
    }
    NameLength(lfn[..], name, len);
    var n := (len + 12) / 13;
    ds := [];
    var ord := n;
    while ord > 0
      invariant 0 <= ord <= n && |ds| == n - ord
      invariant forall j | 0 <= j < |ds| :: IsEntry(ds[j], name, n - j, sum)
    {
      var dir := new uint8[32];
      PutLfn(lfn, dir, ord, sum, name);
      ds := ds + [dir[..]];
      ord := ord - 1;
    }
  }

  lemma NameLength(b: seq<uint16>, name: seq<uint16>, len: nat)
    requires |name| < |b| && IsName(name) && b[..|name|] == name && len <= |name| && b[len] == 0
    ensures len == |name|
  {
    assert forall i | 0 <= i < |name| :: b[i] == b[..|name|][i] != 0;
  }

  lemma ReadOneMore(r: Reader, ds: seq<seq<uint8>>, n: nat)
    requires n < |ds| && forall d | d in ds :: |d| == 32
    ensures ReadEntries(r, ds[..n + 1]) == ReadEntry(ReadEntries(r, ds[..n]), ds[n])
  {
    hide ReadEntry;
    assert ds[..n + 1][..n] == ds[..n] && ds[..n + 1][n] == ds[n];
  }

  lemma ReadNone(r: Reader)
    ensures ReadEntries(r, []) == r
  {
  }

  /** Reads on until the next short entry, or the end of the directory. */
  method DirRead(ds: seq<seq<uint8>>, lfnbuf: array<uint16>) returns (found: bool, at: nat, hasLong: bool)
    requires lfnbuf.Length == MAX_LFN + 1 && forall d | d in ds :: |d| == 32
    modifies lfnbuf
    ensures at <= |ds| && forall j | 0 <= j < at :: ds[j][0] != 0 && (Skipped(ds[j]) || IsLong(ds[j]))
    ensures found <==> at < |ds| && ds[at][0] != 0 && !Skipped(ds[at]) && !IsLong(ds[at])
    ensures !found ==> at == |ds| || ds[at][0] == 0
    ensures var t := ReadEntries(Reader(0xFF, 0xFF, old(lfnbuf[..])), ds[..at]);
      lfnbuf[..] == t.buf && (found ==> hasLong == HasLongName(t, ds[at]))
  {
    hide SumSfn, ReadEntry, ReadEntries, Skipped, IsLong;
    var ord: uint8 := 0xFF;
    var sum: uint8 := 0xFF;
    ghost var start := Reader(0xFF, 0xFF, lfnbuf[..]);
    ReadNone(start);
    found, at, hasLong := false, 0, false;
    while at < |ds|
      invariant at <= |ds| && !found
      invariant forall j | 0 <= j < at :: ds[j][0] != 0 && (Skipped(ds[j]) || IsLong(ds[j]))
      invariant ReadEntries(start, ds[..at]) == Reader(ord, sum, lfnbuf[..])
      decreases |ds| - at
    {
      var d := ds[at];
      if d[0] == 0 {
        return;
      }
      if !Skipped(d) && !IsLong(d) {
        return true, at, ord == 0 && sum == SumSfn(d, 11);
      }
      ReadOneMore(start, ds, at);
      ord, sum := ReadLong(d, ord, sum, lfnbuf);
      at := at + 1;
    }
  }

  /** One deleted or long entry. */
  method ReadLong(d: seq<uint8>, ord: uint8, sum: uint8, lfnbuf: array<uint16>) returns (ord': uint8, sum': uint8)
    requires lfnbuf.Length == MAX_LFN + 1 && |d| == 32 && (Skipped(d) || IsLong(d))
    modifies lfnbuf
    ensures Reader(ord', sum', lfnbuf[..]) == ReadEntry(Reader(ord, sum, old(lfnbuf[..])), d)
  {
    hide Pick;
    ord', sum' := ord, sum;
    if Skipped(d) {
      return 0xFF, sum;
    }
    var b: nat := d[0];
    if IsLast(d[0]) {
      sum' := d[13];
      b := OrderOf(d[0]);
      ord' := b;
    }
    if b == ord' && sum' == d[13] {
      var ok := PickLfn(lfnbuf, d);
      ord' := if ok then (ord' - 1) % 0x100 else 0xFF;
    } else {
      ord' := 0xFF;
    }
  }

  // ----- writing and reading together -----

  /** An entry that dir_read stops at. */
  predicate IsShort(d: seq<uint8>) {
    |d| == 32 && d[0] != 0 && !Skipped(d) && !IsLong(d)
  }

  lemma {:induction false} ReadBoth(r: Reader, a: seq<seq<uint8>>, b: seq<seq<uint8>>)
    requires (forall d | d in a :: |d| == 32) && (forall d | d in b :: |d| == 32)
    ensures ReadEntries(r, a + b) == ReadEntries(ReadEntries(r, a), b)
    decreases |b|
  {
    hide ReadEntry;
    if b == [] {
      assert a + b == a;
    } else {
      assert (a + b)[..|a + b| - 1] == a + b[..|b| - 1];
      ReadBoth(r, a, b[..|b| - 1]);
    }
  }

  /** Long entries are passed over. */
  lemma EntriesPassed(ds: seq<seq<uint8>>, name: seq<uint16>, sum: uint8, j: nat)
    requires AreEntries(ds, name, sum) && j < |ds|
    ensures |ds[j]| == 32 && ds[j][0] != 0 && !Skipped(ds[j]) && IsLong(ds[j])
  {
    hide IsEntry;
    assert IsEntry(ds[j], name, |ds| - j, sum);
    EntryFlags(ds[j], name, |ds| - j, sum);
    EntryByte(ds[j], name, |ds| - j, sum);
  }

  /** Wherever the reader starts: entries that are passed over, then the long entries that were written for a name,
      then their short entry; dir_read stops at that and leaves the name in the buffer. */
  method RegisterThenRead(before: seq<seq<uint8>>, lfn: array<uint16>, short: seq<uint8>, rest: seq<seq<uint8>>,
      lfnbuf: array<uint16>, ghost name: seq<uint16>)
    returns (at: nat)
    requires lfn.Length == MAX_LFN + 1 && IsName(name) && lfn[..|name|] == name && lfn[|name|] == 0
    requires lfnbuf.Length == MAX_LFN + 1 && lfnbuf != lfn && IsShort(short)
    requires forall d | d in before :: |d| == 32 && d[0] != 0 && (Skipped(d) || IsLong(d))
    requires forall d | d in rest :: |d| == 32
    modifies lfnbuf
    ensures at == |before| + EntriesOf(name)
    ensures lfnbuf[..|name|] == name && lfnbuf[|name|] == 0
  {
    hide Skipped, IsLong, ReadEntries, HasLongName, AreEntries, SumSfn;
    var sum := SumSfn(short, 11);
    var ds := PutEntries(lfn, sum, name);
    EntriesAre32(ds, name, sum);
    var all := before + ds + [short] + rest;
    ghost var start := Reader(0xFF, 0xFF, lfnbuf[..]);
    var found, hasLong;
    found, at, hasLong := DirRead(all, lfnbuf);
    StopsAt(before, ds, short, rest, name, sum, at);
    assert all[..at] == before + ds && all[at] == short;
    ReadBoth(start, before, ds);
    LongNameRead(ReadEntries(start, before), ds, name, sum, short);
    assert hasLong;
  }

  lemma StopsAt(before: seq<seq<uint8>>, ds: seq<seq<uint8>>, short: seq<uint8>, rest: seq<seq<uint8>>,
      name: seq<uint16>, sum: uint8, at: nat)
    requires AreEntries(ds, name, sum) && IsShort(short)
    requires forall d | d in before :: |d| == 32 && d[0] != 0 && (Skipped(d) || IsLong(d))
    requires forall d | d in rest :: |d| == 32
    requires var all := before + ds + [short] + rest;
      at <= |all| && (forall j | 0 <= j < |all| :: |all[j]| == 32)
      && (forall j | 0 <= j < at :: all[j][0] != 0 && (Skipped(all[j]) || IsLong(all[j])))
      && (at == |all| || all[at][0] == 0 || IsShort(all[at]))
    ensures |ds| == EntriesOf(name) && at == |before| + |ds|
  {
    hide Skipped, IsLong, IsEntry;
    var all := before + ds + [short] + rest;
    assert all[|before| + |ds|] == short;
    if |before| <= at < |before| + |ds| {
      EntriesPassed(ds, name, sum, at - |before|);
    }
  }
}
