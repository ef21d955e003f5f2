/** The FAT as sectors of the volume, and the packed 12/16/32-bit entries over them. */
module FatEntries {
  import opened MachineInts
  import opened Arith
  import opened FatGeometry

  type Volume = seq<Sector>

  /** The volume after sector s has been written through the window: a sector of the first
      FAT is reflected into the second one. */
  function Flushed(g: Geometry, v: Volume, s: nat, data: Sector): (r: Volume)
    requires g.Sound() && |v| == g.nSectors && s < g.nSectors
    ensures |r| == |v| && r[s] == data
    ensures forall i | 0 <= i < |v| && i != s && i != s + g.fsize :: r[i] == v[i]
  {
    InFirstFatMeaning(g, s);
    var w := v[s := data];
    if g.InFirstFat(s) && g.nFats == 2 then w[s + g.fsize := data] else w
  }

  /** A second write of the same sector hides the first. */
  lemma FlushedTwice(g: Geometry, v: Volume, s: nat, a: Sector, b: Sector)
    requires g.Sound() && |v| == g.nSectors && s < g.nSectors
    ensures Flushed(g, Flushed(g, v, s, a), s, b) == Flushed(g, v, s, b)
  {
    InFirstFatMeaning(g, s);
  }

  /** Every sector of the second FAT equals its sector of the first. */
  predicate CopiesAgree(g: Geometry, v: Volume)
    requires g.Sound() && |v| == g.nSectors
  {
    g.nFats == 2 ==>
      forall i | g.fatbase <= i < g.fatbase + g.fsize :: v[i] == v[i + g.fsize]
  }

  /** What a change of the FAT alone leaves as it was. */
  predicate SameOutsideFat(g: Geometry, v: Volume, w: Volume)
    requires |v| == g.nSectors
  {
    |w| == |v| && forall i | 0 <= i < |v| && !g.InFat(i) :: w[i] == v[i]
  }

  /** Only the FAT differs, and equal copies stay equal. */
  predicate FatOnly(g: Geometry, v: Volume, w: Volume)
    requires g.Sound() && |v| == g.nSectors
  {
    SameOutsideFat(g, v, w) && (CopiesAgree(g, v) ==> CopiesAgree(g, w))
  }

  lemma FatOnlyFlushed(g: Geometry, v: Volume, s: nat, data: Sector)
    requires g.Sound() && |v| == g.nSectors && s < g.nSectors && g.InFirstFat(s)
    ensures FatOnly(g, v, Flushed(g, v, s, data))
  {
    InFirstFatMeaning(g, s);
  }

  /** The volume with the sectors from s on replaced by ds. */
  function PutSectors(v: Volume, s: nat, ds: seq<Sector>): (r: Volume)
    requires s + |ds| <= |v|
    ensures |r| == |v|
    ensures forall i | 0 <= i < |v| :: r[i] == if s <= i < s + |ds| then ds[i - s] else v[i]
  {
    v[..s] + ds + v[s + |ds|..]
  }

  // ----- words of a sector, little end first -----

  function GetWord(s: Sector, o: nat): nat
    requires o + 1 < 512
  {
    var lo: nat, hi: nat := s[o], s[o + 1];
    lo + 0x100 * hi
  }

  function GetDword(s: Sector, o: nat): nat
    requires o + 3 < 512
  {
    GetWord(s, o) + 0x1_0000 * GetWord(s, o + 2)
  }

  function PutWord(s: Sector, o: nat, d: nat): Sector
    requires o + 1 < 512
  {
    s[o := d % 0x100][o + 1 := d / 0x100 % 0x100]
  }

  function PutDword(s: Sector, o: nat, d: nat): Sector
    requires o + 3 < 512
  {
    PutWord(PutWord(s, o, d), o + 2, d / 0x1_0000)
  }

  lemma LowWord(d: nat)
    ensures d % 0x100 + 0x100 * (d / 0x100 % 0x100) == d % 0x1_0000
  {
    var lo, rest := d % 0x100, d / 0x100;
    var hi, high := rest % 0x100, rest / 0x100;
    ModUnique(d, 0x1_0000, high, lo + 0x100 * hi);
  }

  lemma PutWordGet(s: Sector, o: nat, d: nat, p: nat)
    requires o + 1 < 512 && p + 1 < 512
    ensures p == o ==> GetWord(PutWord(s, o, d), p) == d % 0x1_0000
    ensures p + 2 <= o || o + 2 <= p ==> GetWord(PutWord(s, o, d), p) == GetWord(s, p)
  {
    LowWord(d);
  }

  lemma PutDwordGet(s: Sector, o: nat, d: nat, p: nat)
    requires o + 3 < 512 && p + 3 < 512 && d < 0x1_0000_0000
    ensures p == o ==> GetDword(PutDword(s, o, d), p) == d
    ensures p + 4 <= o || o + 4 <= p ==> GetDword(PutDword(s, o, d), p) == GetDword(s, p)
  {
    hide GetWord, PutWord;
    var s1 := PutWord(s, o, d);
    PutWordGet(s, o, d, p);
    PutWordGet(s, o, d, p + 2);
    PutWordGet(s1, o + 2, d / 0x1_0000, p);
    PutWordGet(s1, o + 2, d / 0x1_0000, p + 2);
  }

  // ----- entries -----

  /** Byte k of the first FAT. */
  function FatByte(g: Geometry, v: Volume, k: nat): uint8
    requires g.Sound() && |v| == g.nSectors && k < g.fsize * 512
  {
    v[g.fatbase + k / 512][k % 512]
  }

  /** An odd 12-bit entry is the upper part of its two bytes, an even one the lower. */
  function Unpack12(c: nat, w: nat): nat {
    if c % 2 == 1 then w / 16 else w % 0x1000
  }

  /** The value of entry c, FAT32 without the four reserved bits. */
  function Entry(g: Geometry, v: Volume, c: nat): nat
    requires g.Sound() && |v| == g.nSectors && c < g.nFatent
  {
    match g.fsType
    case Fat12 => Word12(g, c); Unpack12(c, FatByte(g, v, c + c / 2) + 0x100 * FatByte(g, v, c + c / 2 + 1))
    case Fat16 => Place16(g, c); GetWord(v[g.fatbase + c / 256], c * 2 % 512)
    case Fat32 => Place32(g, c); GetDword(v[g.fatbase + c / 128], c * 4 % 512) % 0x1000_0000
  }

  lemma Word12(g: Geometry, c: nat)
    requires g.Sound() && g.fsType == Fat12 && c < g.nFatent
    ensures c + c / 2 + 1 < g.fsize * 512
  {
  }

  lemma FatSector(g: Geometry, k: nat)
    requires g.Sound() && k < g.fsize * 512
    ensures k / 512 < g.fsize && g.InFirstFat(g.fatbase + k / 512)
  {
    InFirstFatMeaning(g, g.fatbase + k / 512);
  }

  lemma Place16(g: Geometry, c: nat)
    requires g.Sound() && g.fsType == Fat16 && c < g.nFatent
    ensures c / 256 < g.fsize && g.InFirstFat(g.fatbase + c / 256)
    ensures c * 2 == c / 256 * 512 + c * 2 % 512 && c * 2 % 512 + 1 < 512
  {
    assert c / 256 == c * 2 / 512;
    InFirstFatMeaning(g, g.fatbase + c / 256);
  }

  lemma Place32(g: Geometry, c: nat)
    requires g.Sound() && g.fsType == Fat32 && c < g.nFatent
    ensures c / 128 < g.fsize && g.InFirstFat(g.fatbase + c / 128)
    ensures c * 4 == c / 128 * 512 + c * 4 % 512 && c * 4 % 512 + 3 < 512
  {
    assert c / 128 == c * 4 / 512;
    InFirstFatMeaning(g, g.fatbase + c / 128);
  }

  /** What an entry of this type keeps of a value. */
  function Mask(t: FsType, val: nat): nat {
    match t
    case Fat12 => val % 0x1000
    case Fat16 => val % 0x1_0000
    case Fat32 => val % 0x1000_0000
  }

  /** All entries of the FAT. */
  function Table(g: Geometry, v: Volume): (t: seq<nat>)
    requires g.Sound() && |v| == g.nSectors
    ensures |t| == g.nFatent
    ensures forall c | 0 <= c < g.nFatent :: t[c] == Entry(g, v, c)
  {
    seq(g.nFatent, c requires 0 <= c < g.nFatent => Entry(g, v, c))
  }

  // ----- storing an entry, as put_fat writes it for each packing -----

  /** The first byte of a 12-bit entry: an odd entry keeps the low nibble. */
  function First12(c: nat, val: nat, old1: uint8): uint8 {
    if c % 2 == 1 then old1 % 16 + (val % 16) * 16 else val % 0x100
  }

  /** The second byte of a 12-bit entry: an even entry keeps the high nibble. */
  function Second12(c: nat, val: nat, old2: uint8): uint8 {
    if c % 2 == 1 then val / 16 % 0x100 else old2 / 16 * 16 + val / 0x100 % 16
  }

  /** The double word written for a 32-bit entry: the four reserved bits stay. */
  function Double32(val: nat, was: nat): nat {
    val % 0x1000_0000 + was / 0x1000_0000 * 0x1000_0000
  }

  /** The volume with byte k of the FAT replaced, in every copy. */
  function StoreFatByte(g: Geometry, v: Volume, k: nat, b: uint8): (r: Volume)
    requires g.Sound() && |v| == g.nSectors && k < g.fsize * 512
    ensures |r| == |v|
  {
    var s := g.fatbase + k / 512;
    Flushed(g, v, s, v[s][k % 512 := b])
  }

  function Store12(g: Geometry, v: Volume, c: nat, val: nat): (r: Volume)
    requires g.Sound() && g.fsType == Fat12 && |v| == g.nSectors && c < g.nFatent
    ensures |r| == |v|
  {
    Word12(g, c);
    var k := c + c / 2;
    var v1 := StoreFatByte(g, v, k, First12(c, val, FatByte(g, v, k)));
    StoreFatByte(g, v1, k + 1, Second12(c, val, FatByte(g, v1, k + 1)))
  }

  function Store16(g: Geometry, v: Volume, c: nat, val: nat): (r: Volume)
    requires g.Sound() && g.fsType == Fat16 && |v| == g.nSectors && c < g.nFatent
    ensures |r| == |v|
  {
    Place16(g, c);
    var s := g.fatbase + c / 256;
    Flushed(g, v, s, PutWord(v[s], c * 2 % 512, val))
  }

  function Store32(g: Geometry, v: Volume, c: nat, val: nat): (r: Volume)
    requires g.Sound() && g.fsType == Fat32 && |v| == g.nSectors && c < g.nFatent
    ensures |r| == |v|
  {
    Place32(g, c);
    var s, o := g.fatbase + c / 128, c * 4 % 512;
    Flushed(g, v, s, PutDword(v[s], o, Double32(val, GetDword(v[s], o))))
  }

  function Store(g: Geometry, v: Volume, c: nat, val: nat): (r: Volume)
    requires g.Sound() && |v| == g.nSectors && c < g.nFatent
    ensures |r| == |v|
  {
    match g.fsType
    case Fat12 => Store12(g, v, c, val)
    case Fat16 => Store16(g, v, c, val)
    case Fat32 => Store32(g, v, c, val)
  }

  // ----- a stored entry reads back masked, and no other entry moves -----

  lemma StoreFatByteAt(g: Geometry, v: Volume, k: nat, b: uint8, j: nat)
    requires g.Sound() && |v| == g.nSectors
    requires k < g.fsize * 512 && j < g.fsize * 512
    ensures FatByte(g, StoreFatByte(g, v, k, b), j) == if j == k then b else FatByte(g, v, j)
  {
    InFirstFatMeaning(g, g.fatbase + k / 512);
  }

  /** The three low nibbles of a number. */
  lemma NibbleParts(val: nat) returns (l: nat, m: nat, h: nat)
    ensures l < 16 && m < 16 && h < 16
    ensures val % 16 == l && val % 0x100 == 16 * m + l && val % 0x1000 == 0x100 * h + 16 * m + l
    ensures val / 16 % 0x100 == 16 * h + m && val / 0x100 % 16 == h
  {
    l, m, h := val % 16, val / 16 % 16, val / 16 / 16 % 16;
    var q := val / 16 / 16 / 16;
    ModUnique(val, 16, 0x100 * q + 16 * h + m, l);
    ModUnique(val, 0x100, 16 * q + h, 16 * m + l);
    ModUnique(val, 0x1000, q, 0x100 * h + 16 * m + l);
    ModUnique(val / 16, 0x100, q, 16 * h + m);
    ModUnique(val / 0x100, 16, q, h);
  }

  lemma Nibbles(a: uint8, b: uint8, val: nat)
    ensures (val % 0x100 + 0x100 * (b / 16 * 16 + val / 0x100 % 16)) % 0x1000 == val % 0x1000
    ensures (a % 16 + (val % 16) * 16 + 0x100 * (val / 16 % 0x100)) / 16 == val % 0x1000
    ensures 0 <= b / 16 * 16 + val / 0x100 % 16 < 256
    ensures 0 <= a % 16 + (val % 16) * 16 < 256
  {
    var l, m, h := NibbleParts(val);
    ModUnique(16 * m + l + 0x100 * (b / 16 * 16 + h), 0x1000, b / 16, 0x100 * h + 16 * m + l);
    ModUnique(a % 16 + l * 16 + 0x100 * (16 * h + m), 16, 0x100 * h + 16 * m + l, a % 16);
  }

  lemma Unpack12Stored(c: nat, val: nat, a: uint8, b: uint8)
    ensures Unpack12(c, First12(c, val, a) + 0x100 * Second12(c, val, b)) == val % 0x1000
  {
    Nibbles(a, b, val);
  }

  /** Two 12-bit entries next to each other share a byte but no nibble. */
  lemma Unpack12Next(c: nat, val: nat, b: uint8, z: uint8)
    requires c % 2 == 0
    ensures Unpack12(c + 1, Second12(c, val, b) + 0x100 * z) == Unpack12(c + 1, b + 0x100 * z)
  {
    var h := val / 0x100 % 16;
    ModUnique(b / 16 * 16 + h + 0x100 * z, 16, b / 16 + 16 * z, h);
    ModUnique(b + 0x100 * z, 16, b / 16 + 16 * z, b % 16);
  }

  lemma Unpack12Previous(c: nat, val: nat, a: uint8, z: uint8)
    requires c % 2 == 1
    ensures Unpack12(c - 1, z + 0x100 * First12(c, val, a)) == Unpack12(c - 1, z + 0x100 * a)
  {
    var l := a % 16;
    ModUnique(z + 0x100 * (l + val % 16 * 16), 0x1000, val % 16, z + 0x100 * l);
    ModUnique(z + 0x100 * a, 0x1000, a / 16, z + 0x100 * l);
  }

  lemma Store12Def(g: Geometry, v: Volume, c: nat, val: nat)
    requires g.Sound() && g.fsType == Fat12 && |v| == g.nSectors && c < g.nFatent
    ensures c + c / 2 + 1 < g.fsize * 512
    ensures
      var k := c + c / 2;
      var v1 := StoreFatByte(g, v, k, First12(c, val, FatByte(g, v, k)));
      Store12(g, v, c, val) == StoreFatByte(g, v1, k + 1, Second12(c, val, FatByte(g, v1, k + 1)))
  {
    Word12(g, c);
    hide Geometry.Sound, FatBytesNeeded, StoreFatByte, FatByte, First12, Second12;
  }

  lemma Store12Byte(g: Geometry, v: Volume, c: nat, val: nat, i: nat)
    requires g.Sound() && g.fsType == Fat12 && |v| == g.nSectors && c < g.nFatent
    requires i < g.fsize * 512
    ensures FatByte(g, Store12(g, v, c, val), i)
         == if i == c + c / 2 then First12(c, val, FatByte(g, v, i))
            else if i == c + c / 2 + 1 then Second12(c, val, FatByte(g, v, i))
            else FatByte(g, v, i)
  {
    hide *;
    Store12Def(g, v, c, val);
    var k := c + c / 2;
    var b1 := First12(c, val, FatByte(g, v, k));
    var v1 := StoreFatByte(g, v, k, b1);
    StoreFatByteAt(g, v, k, b1, k + 1);
    StoreFatByteAt(g, v, k, b1, i);
    StoreFatByteAt(g, v1, k + 1, Second12(c, val, FatByte(g, v1, k + 1)), i);
  }

  lemma Offsets12(c: nat, d: nat)
    requires c < d
    ensures d + d / 2 >= c + c / 2 + 1
    ensures d + d / 2 == c + c / 2 + 1 ==> d == c + 1 && c % 2 == 0
  {
  }

  lemma Entry12(g: Geometry, v: Volume, d: nat)
    requires g.Sound() && g.fsType == Fat12 && |v| == g.nSectors && d < g.nFatent
    ensures d + d / 2 + 1 < g.fsize * 512
    ensures Entry(g, v, d) == Unpack12(d, FatByte(g, v, d + d / 2) + 0x100 * FatByte(g, v, d + d / 2 + 1))
  {
    Word12(g, d);
    hide Geometry.Sound, FatBytesNeeded, FatByte, Unpack12;
  }

  lemma Store12Entry(g: Geometry, v: Volume, c: nat, val: nat, d: nat)
    requires g.Sound() && g.fsType == Fat12 && |v| == g.nSectors && c < g.nFatent && d < g.nFatent
    ensures Entry(g, Store12(g, v, c, val), d) == if d == c then val % 0x1000 else Entry(g, v, d)
  {
    hide *;
    Entry12(g, v, d);
    Entry12(g, Store12(g, v, c, val), d);
    Store12Byte(g, v, c, val, d + d / 2);
    Store12Byte(g, v, c, val, d + d / 2 + 1);
    var x, y := FatByte(g, v, d + d / 2), FatByte(g, v, d + d / 2 + 1);
    if d == c {
      Unpack12Stored(c, val, x, y);
    } else if c < d {
      Offsets12(c, d);
      if d + d / 2 == c + c / 2 + 1 {
        Unpack12Next(c, val, x, y);
      }
    } else {
      Offsets12(d, c);
      if c + c / 2 == d + d / 2 + 1 {
        Unpack12Previous(c, val, y, x);
      }
    }
  }

  lemma Store16Entry(g: Geometry, v: Volume, c: nat, val: nat, d: nat)
    requires g.Sound() && g.fsType == Fat16 && |v| == g.nSectors && c < g.nFatent && d < g.nFatent
    ensures Entry(g, Store16(g, v, c, val), d) == if d == c then val % 0x1_0000 else Entry(g, v, d)
  {
    Place16(g, c);
    Place16(g, d);
    hide GetWord, PutWord;
    var s, o, p := g.fatbase + c / 256, c * 2 % 512, d * 2 % 512;
    if c / 256 == d / 256 {
      PutWordGet(v[s], o, val, p);
      assert c < d ==> o + 2 <= p;
      assert d < c ==> p + 2 <= o;
    }
  }

  lemma Double32Parts(val: nat, was: nat)
    requires was < 0x1_0000_0000
    ensures Double32(val, was) < 0x1_0000_0000
    ensures Double32(val, was) % 0x1000_0000 == val % 0x1000_0000
    ensures Double32(val, was) / 0x1000_0000 == was / 0x1000_0000
  {
    ModUnique(Double32(val, was), 0x1000_0000, was / 0x1000_0000, val % 0x1000_0000);
  }

  lemma Store32Entry(g: Geometry, v: Volume, c: nat, val: nat, d: nat)
    requires g.Sound() && g.fsType == Fat32 && |v| == g.nSectors && c < g.nFatent && d < g.nFatent
    ensures Entry(g, Store32(g, v, c, val), d) == if d == c then val % 0x1000_0000 else Entry(g, v, d)
  {
    Place32(g, c);
    Place32(g, d);
    var s, o, p := g.fatbase + c / 128, c * 4 % 512, d * 4 % 512;
    if c / 128 == d / 128 {
      Double32Parts(val, GetDword(v[s], o));
      hide GetDword, PutDword, Double32;
      PutDwordGet(v[s], o, Double32(val, GetDword(v[s], o)), p);
      assert c < d ==> o + 4 <= p;
      assert d < c ==> p + 4 <= o;
    } else {
      hide GetDword, PutDword, Double32;
    }
  }

  /** Storing an entry changes that entry of the table to the masked value and no other. */
  lemma StoreTable(g: Geometry, v: Volume, c: nat, val: nat)
    requires g.Sound() && |v| == g.nSectors && c < g.nFatent
    ensures Table(g, Store(g, v, c, val)) == Table(g, v)[c := Mask(g.fsType, val)]
  {
    hide Entry, Store12, Store16, Store32;
    forall d | 0 <= d < g.nFatent
      ensures Entry(g, Store(g, v, c, val), d)
           == if d == c then Mask(g.fsType, val) else Entry(g, v, d)
    {
      match g.fsType
      case Fat12 => Store12Entry(g, v, c, val, d);
      case Fat16 => Store16Entry(g, v, c, val, d);
      case Fat32 => Store32Entry(g, v, c, val, d);
    }
  }

  lemma FatOnlyByte(g: Geometry, v: Volume, k: nat, b: uint8)
    requires g.Sound() && |v| == g.nSectors && k < g.fsize * 512
    ensures FatOnly(g, v, StoreFatByte(g, v, k, b))
  {
    hide FatOnly;
    InFirstFatMeaning(g, g.fatbase + k / 512);
    FatOnlyFlushed(g, v, g.fatbase + k / 512, v[g.fatbase + k / 512][k % 512 := b]);
  }

  lemma FatOnlyTrans(g: Geometry, u: Volume, v: Volume, w: Volume)
    requires g.Sound() && |u| == |v| == g.nSectors
    requires FatOnly(g, u, v) && FatOnly(g, v, w)
    ensures FatOnly(g, u, w)
  {
  }

  /** Storing an entry touches nothing outside the FAT and keeps the two copies equal. */
  lemma StoreFrame(g: Geometry, v: Volume, c: nat, val: nat)
    requires g.Sound() && |v| == g.nSectors && c < g.nFatent
    ensures FatOnly(g, v, Store(g, v, c, val))
  {
    hide FatOnly, Flushed, StoreFatByte, PutWord, PutDword, GetDword, Double32, FatByte;
    match g.fsType
    case Fat12 =>
      Store12Def(g, v, c, val);
      var k := c + c / 2;
      var b1 := First12(c, val, FatByte(g, v, k));
      var v1 := StoreFatByte(g, v, k, b1);
      var b2 := Second12(c, val, FatByte(g, v1, k + 1));
      FatOnlyByte(g, v, k, b1);
      FatOnlyByte(g, v1, k + 1, b2);
      FatOnlyTrans(g, v, v1, StoreFatByte(g, v1, k + 1, b2));
    case Fat16 =>
      Place16(g, c);
      var s := g.fatbase + c / 256;
      FatOnlyFlushed(g, v, s, PutWord(v[s], c * 2 % 512, val));
    case Fat32 =>
      Place32(g, c);
      var s, o := g.fatbase + c / 128, c * 4 % 512;
      FatOnlyFlushed(g, v, s, PutDword(v[s], o, Double32(val, GetDword(v[s], o))));
  }

  /** Volumes that agree below the data area have the same entries. */
  lemma SameFat(g: Geometry, v: Volume, w: Volume)
    requires g.Sound() && |v| == |w| == g.nSectors
    requires forall i | 0 <= i < g.database :: v[i] == w[i]
    ensures Table(g, v) == Table(g, w)
  {
    hide Entry;
    forall c | 0 <= c < g.nFatent ensures Entry(g, v, c) == Entry(g, w, c) {
      SameEntry(g, v, w, c);
    }
  }

  lemma SameEntry(g: Geometry, v: Volume, w: Volume, c: nat)
    requires g.Sound() && |v| == |w| == g.nSectors && c < g.nFatent
    requires forall i | 0 <= i < g.database :: v[i] == w[i]
    ensures Entry(g, v, c) == Entry(g, w, c)
  {
    hide GetWord, GetDword, Unpack12;
    match g.fsType
    case Fat12 => Word12(g, c);
    case Fat16 => Place16(g, c);
    case Fat32 => Place32(g, c);
  }
}
