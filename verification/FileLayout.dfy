/** How the bytes of a file lie in the sectors of its cluster chain. */
module FileLayout {
  import opened MachineInts
  import opened Arith
  import opened FatGeometry
  import opened FatEntries

  /** The clusters are valid and all different. */
  ghost predicate ProperChain(g: Geometry, chain: seq<nat>) {
    && (forall i | 0 <= i < |chain| :: g.ValidCluster(chain[i]))
    && (forall i, j | 0 <= i < j < |chain| :: chain[i] != chain[j])
  }

  /** Index in the chain of the cluster that holds file sector q. */
  function ClusterIndex(g: Geometry, q: nat): nat
    requires g.csize > 0
  {
    q / g.csize
  }

  /** Offset of file sector q in its cluster. */
  function SectorOffset(g: Geometry, q: nat): (o: nat)
    requires g.csize > 0
    ensures o < g.csize
  {
    q % g.csize
  }

  /** Sector q of the file exists. */
  predicate HasSector(g: Geometry, chain: seq<nat>, q: nat)
    requires g.csize > 0
  {
    ClusterIndex(g, q) < |chain|
  }

  /** The volume sector of file sector q. */
  function FileSector(g: Geometry, chain: seq<nat>, q: nat): nat
    requires g.csize > 0 && HasSector(g, chain, q)
  {
    g.ClusterBase(chain[ClusterIndex(g, q)]) + SectorOffset(g, q)
  }

  /** The chain holds n bytes. */
  predicate Fits(g: Geometry, chain: seq<nat>, n: nat)
    requires g.csize > 0
  {
    n > 0 ==> HasSector(g, chain, (n - 1) / 512)
  }

  lemma SplitUnique(g: Geometry, q: nat, r: nat)
    requires g.csize > 0
    requires ClusterIndex(g, q) == ClusterIndex(g, r) && SectorOffset(g, q) == SectorOffset(g, r)
    ensures q == r
  {
    assert q == g.csize * (q / g.csize) + q % g.csize;
    assert r == g.csize * (r / g.csize) + r % g.csize;
  }

  /** Sectors follow one another within a cluster. */
  lemma SplitRun(g: Geometry, q: nat, j: nat)
    requires g.csize > 0 && SectorOffset(g, q) + j < g.csize
    ensures ClusterIndex(g, q + j) == ClusterIndex(g, q)
    ensures SectorOffset(g, q + j) == SectorOffset(g, q) + j
  {
    ModUnique(q + j, g.csize, q / g.csize, q % g.csize + j);
  }

  /** The sector after the last of a cluster is the first of the next. */
  lemma SplitNext(g: Geometry, q: nat)
    requires g.csize > 0 && SectorOffset(g, q) == 0 && q > 0
    ensures ClusterIndex(g, q) > 0
    ensures ClusterIndex(g, q - 1) == ClusterIndex(g, q) - 1
  {
    var a := q / g.csize;
    assert q == g.csize * a;
    assert a != 0;
    assert g.csize * a == g.csize * (a - 1) + g.csize;
    ModUnique(q - 1, g.csize, a - 1, g.csize - 1);
  }

  /** A sector that is not the first of its cluster is in the cluster of the one before. */
  lemma SplitPrevious(g: Geometry, q: nat)
    requires g.csize > 0 && SectorOffset(g, q) != 0
    ensures q > 0 && ClusterIndex(g, q - 1) == ClusterIndex(g, q)
  {
    ModUnique(q - 1, g.csize, q / g.csize, q % g.csize - 1);
  }

  /** A cluster's worth of sectors further is the same place of the next cluster. */
  lemma SplitCluster(g: Geometry, q: nat)
    requires g.csize > 0
    ensures ClusterIndex(g, q + g.csize) == ClusterIndex(g, q) + 1
    ensures SectorOffset(g, q + g.csize) == SectorOffset(g, q)
  {
    var a := q / g.csize;
    assert g.csize * (a + 1) == g.csize * a + g.csize;
    ModUnique(q + g.csize, g.csize, a + 1, q % g.csize);
  }

  /** The start of the cluster of byte x, in bytes. */
  lemma ClusterStart(g: Geometry, x: nat)
    requires g.csize > 0
    ensures var b := x - x % (512 * g.csize);
      && 0 <= b <= x && b % 512 == 0
      && SectorOffset(g, b / 512) == 0 && ClusterIndex(g, b / 512) == ClusterIndex(g, x / 512)
      && x - b < 512 * g.csize
  {
    var q, a, o := x / 512, x / 512 / g.csize, x / 512 % g.csize;
    assert q == g.csize * a + o;
    assert x == 512 * q + x % 512;
    ClusterBytes(g.csize, a);
    ModUnique(x, 512 * g.csize, a, 512 * o + x % 512);
    ModUnique(g.csize * a, g.csize, a, 0);
    assert x - x % (512 * g.csize) == 512 * (g.csize * a);
  }

  lemma ClusterBytes(c: nat, a: nat)
    ensures 512 * c * a == 512 * (c * a)
  {
  }

  /** Not before the cluster of byte x means not before the start of that cluster. */
  lemma StartBelow(y: nat, x: nat, m: nat)
    requires m > 0 && y / m >= x / m
    ensures x - x % m <= y
  {
    MulMonotone(m, x / m, y / m);
    assert x == m * (x / m) + x % m;
    assert y == m * (y / m) + y % m;
  }

  lemma SectorBelow(g: Geometry, chain: seq<nat>, n: nat, k: nat)
    requires g.csize > 0 && Fits(g, chain, n) && k < n
    ensures HasSector(g, chain, k / 512)
  {
    DivMonotone(k / 512, (n - 1) / 512, g.csize);
  }

  lemma FileSectorPlace(g: Geometry, chain: seq<nat>, q: nat)
    requires g.Sound() && ProperChain(g, chain) && HasSector(g, chain, q)
    ensures g.InCluster(chain[ClusterIndex(g, q)], FileSector(g, chain, q))
    ensures g.database <= FileSector(g, chain, q) < g.nSectors
    ensures !g.InFat(FileSector(g, chain, q))
  {
    assert g.csize > 0;
    hide ClusterIndex, SectorOffset, Geometry.ClusterBase, Geometry.Sound, Geometry.InFat, IsPowerOfTwo;
    ClusterInside(g, chain[ClusterIndex(g, q)], FileSector(g, chain, q));
  }

  /** Different file sectors lie in different volume sectors. */
  lemma FileSectorInjective(g: Geometry, chain: seq<nat>, q: nat, r: nat)
    requires g.Sound() && ProperChain(g, chain) && HasSector(g, chain, q) && HasSector(g, chain, r)
    requires FileSector(g, chain, q) == FileSector(g, chain, r)
    ensures q == r
  {
    hide ClusterIndex, SectorOffset, Geometry.ClusterBase, Geometry.Sound, IsPowerOfTwo;
    ClustersDisjoint(g, chain[ClusterIndex(g, q)], chain[ClusterIndex(g, r)], FileSector(g, chain, q));
    SplitUnique(g, q, r);
  }

  /** Within a cluster, consecutive file sectors are consecutive volume sectors. */
  lemma FileSectorRun(g: Geometry, chain: seq<nat>, q: nat, j: nat)
    requires g.csize > 0 && HasSector(g, chain, q) && SectorOffset(g, q) + j < g.csize
    ensures HasSector(g, chain, q + j)
    ensures FileSector(g, chain, q + j) == FileSector(g, chain, q) + j
  {
    SplitRun(g, q, j);
  }

  /** A chain that has grown at its end keeps its sectors where they were. */
  lemma FileSectorPrefix(g: Geometry, chain: seq<nat>, longer: seq<nat>, q: nat)
    requires g.csize > 0 && chain <= longer && HasSector(g, chain, q)
    ensures HasSector(g, longer, q) && FileSector(g, longer, q) == FileSector(g, chain, q)
  {
  }

  // ----- contents -----

  /** The first n bytes of a file with this chain. */
  function Content(g: Geometry, v: Volume, chain: seq<nat>, n: nat): (c: seq<uint8>)
    requires g.Sound() && |v| == g.nSectors && ProperChain(g, chain) && Fits(g, chain, n)
    ensures |c| == n
  {
    seq(n, k requires 0 <= k < n => ByteAt(g, v, chain, n, k))
  }

  function ByteAt(g: Geometry, v: Volume, chain: seq<nat>, n: nat, k: nat): uint8
    requires g.Sound() && |v| == g.nSectors && ProperChain(g, chain) && Fits(g, chain, n) && k < n
  {
    SectorBelow(g, chain, n, k);
    FileSectorPlace(g, chain, k / 512);
    v[FileSector(g, chain, k / 512)][k % 512]
  }

  /** Two volumes hold the same sectors of a file. */
  ghost predicate SameSectors(g: Geometry, v: Volume, w: Volume, chain: seq<nat>)
    requires g.Sound() && |v| == |w| == g.nSectors
  {
    forall c, s | c in chain && 0 <= s < g.nSectors && g.InCluster(c, s) :: v[s] == w[s]
  }

  lemma FitsPrefix(g: Geometry, chain: seq<nat>, longer: seq<nat>, n: nat)
    requires g.csize > 0 && chain <= longer && Fits(g, chain, n)
    ensures Fits(g, longer, n)
  {
  }

  lemma ProperPrefix(g: Geometry, chain: seq<nat>, longer: seq<nat>)
    requires chain <= longer && ProperChain(g, longer)
    ensures ProperChain(g, chain)
  {
  }

  lemma ByteSame(g: Geometry, v: Volume, w: Volume, chain: seq<nat>, longer: seq<nat>, n: nat, k: nat)
    requires g.Sound() && |v| == |w| == g.nSectors && ProperChain(g, longer) && ProperChain(g, chain) && chain <= longer
    requires Fits(g, chain, n) && Fits(g, longer, n) && SameSectors(g, v, w, chain) && k < n
    ensures ByteAt(g, w, longer, n, k) == ByteAt(g, v, chain, n, k)
  {
    SectorBelow(g, chain, n, k);
    hide Geometry.Sound, Geometry.InCluster, Geometry.InFat, FileSector, ProperChain, Fits;
    FileSectorPrefix(g, chain, longer, k / 512);
    FileSectorPlace(g, chain, k / 512);
  }

  /** A file reads the same from volumes that hold the same sectors of it. */
  lemma ContentSame(g: Geometry, v: Volume, w: Volume, chain: seq<nat>, longer: seq<nat>, n: nat)
    requires g.Sound() && |v| == |w| == g.nSectors && ProperChain(g, longer) && chain <= longer
    requires Fits(g, chain, n) && SameSectors(g, v, w, chain)
    ensures ProperChain(g, chain) && Fits(g, longer, n)
    ensures Content(g, w, longer, n) == Content(g, v, chain, n)
  {
    ProperPrefix(g, chain, longer);
    FitsPrefix(g, chain, longer, n);
    hide Geometry.Sound, ProperChain, Fits, ByteAt, SameSectors;
    forall k | 0 <= k < n ensures ByteAt(g, w, longer, n, k) == ByteAt(g, v, chain, n, k) {
      ByteSame(g, v, w, chain, longer, n, k);
    }
  }

  // ----- writing -----

  /** c with data written from position pos on, growing at the end if need be. */
  function Overwrite(c: seq<uint8>, pos: nat, data: seq<uint8>): seq<uint8>
    requires pos <= |c|
  {
    c[..pos] + data + if pos + |data| < |c| then c[pos + |data|..] else []
  }

  function Max(a: nat, b: nat): nat {
    if a > b then a else b
  }

  lemma OverwriteNothing(c: seq<uint8>, pos: nat)
    requires pos <= |c|
    ensures Overwrite(c, pos, []) == c
  {
  }

  /** Two adjacent writes are one. */
  lemma OverwriteTwice(c: seq<uint8>, pos: nat, a: seq<uint8>, b: seq<uint8>)
    requires pos <= |c|
    ensures pos + |a| <= |Overwrite(c, pos, a)|
    ensures Overwrite(Overwrite(c, pos, a), pos + |a|, b) == Overwrite(c, pos, a + b)
  {
    var d := Overwrite(c, pos, a);
    assert d[..pos + |a|] == c[..pos] + a;
    if pos + |a| + |b| < |c| {
      assert d[pos + |a| + |b|..] == c[pos + |a| + |b|..];
    }
  }

  /** A run of sectors inside one cluster replaces exactly those sectors of the file. */
  lemma SectorAfterPut(g: Geometry, v: Volume, chain: seq<nat>, q: nat, ds: seq<Sector>, r: nat)
    requires g.Sound() && |v| == g.nSectors && ProperChain(g, chain)
    requires HasSector(g, chain, q) && HasSector(g, chain, r) && SectorOffset(g, q) + |ds| <= g.csize
    requires FileSector(g, chain, q) + |ds| <= |v|
    ensures FileSector(g, chain, r) < |v|
    ensures PutSectors(v, FileSector(g, chain, q), ds)[FileSector(g, chain, r)]
         == if q <= r < q + |ds| then ds[r - q] else v[FileSector(g, chain, r)]
  {
    assert g.csize > 0;
    hide *;
    FileSectorPlace(g, chain, r);
    var s, x := FileSector(g, chain, q), FileSector(g, chain, r);
    if q <= r < q + |ds| {
      FileSectorRun(g, chain, q, r - q);
    } else if s <= x < s + |ds| {
      FileSectorRun(g, chain, q, x - s);
      FileSectorInjective(g, chain, q + (x - s), r);
    }
  }

  lemma ByteAfterPut(g: Geometry, v: Volume, chain: seq<nat>, n: nat, q: nat, ds: seq<Sector>, k: nat)
    requires g.Sound() && |v| == g.nSectors && ProperChain(g, chain) && Fits(g, chain, n) && k < n
    requires HasSector(g, chain, q) && SectorOffset(g, q) + |ds| <= g.csize
    requires FileSector(g, chain, q) + |ds| <= |v|
    ensures ByteAt(g, PutSectors(v, FileSector(g, chain, q), ds), chain, n, k)
         == if q <= k / 512 < q + |ds| then ds[k / 512 - q][k % 512] else ByteAt(g, v, chain, n, k)
  {
    SectorBelow(g, chain, n, k);
    SectorAfterPut(g, v, chain, q, ds, k / 512);
    hide Geometry.Sound, ProperChain, Fits, HasSector, FileSector, SectorOffset, PutSectors;
  }

  /** If the bytes of the written range are data and the other bytes are the old ones, the
      content has been overwritten there. */
  lemma ContentOverwritten(g: Geometry, v: Volume, w: Volume, chain: seq<nat>, n: nat, pos: nat, data: seq<uint8>)
    requires g.Sound() && |v| == |w| == g.nSectors && ProperChain(g, chain)
    requires Fits(g, chain, n) && Fits(g, chain, Max(n, pos + |data|)) && pos <= n
    requires forall k | 0 <= k < n && !(pos <= k < pos + |data|) ::
      ByteAt(g, w, chain, Max(n, pos + |data|), k) == ByteAt(g, v, chain, n, k)
    requires forall i | 0 <= i < |data| ::
      ByteAt(g, w, chain, Max(n, pos + |data|), pos + i) == data[i]
    ensures Content(g, w, chain, Max(n, pos + |data|)) == Overwrite(Content(g, v, chain, n), pos, data)
  {
    hide Geometry.Sound, ProperChain, Fits, ByteAt;
  }

  // ----- runs of sectors as bytes -----

  /** The bytes of cc sectors from s on. */
  function Joined(v: Volume, s: nat, cc: nat): (d: seq<uint8>)
    requires s + cc <= |v|
    ensures |d| == 512 * cc
    ensures forall i | 0 <= i < 512 * cc :: d[i] == v[s + i / 512][i % 512]
  {
    seq(512 * cc, i requires 0 <= i < 512 * cc => v[s + i / 512][i % 512])
  }

  /** cc sectors taken from the front of data. */
  function Chopped(data: seq<uint8>, cc: nat): (ds: seq<Sector>)
    requires 512 * cc <= |data|
    ensures |ds| == cc
    ensures forall i | 0 <= i < cc :: ds[i] == data[512 * i..512 * i + 512]
  {
    seq(cc, i requires 0 <= i < cc => data[512 * i..512 * i + 512])
  }

  /** buf with data copied in at offset o. */
  function Splice(buf: seq<uint8>, o: nat, data: seq<uint8>): (r: seq<uint8>)
    requires o + |data| <= |buf|
    ensures |r| == |buf|
    ensures forall i | 0 <= i < |buf| :: r[i] == if o <= i < o + |data| then data[i - o] else buf[i]
  {
    buf[..o] + data + buf[o + |data|..]
  }

  lemma JoinedByte(g: Geometry, v: Volume, chain: seq<nat>, n: nat, q: nat, cc: nat, i: nat)
    requires g.Sound() && |v| == g.nSectors && ProperChain(g, chain) && g.csize > 0 && Fits(g, chain, n)
    requires 512 * (q + cc) <= n && HasSector(g, chain, q) && SectorOffset(g, q) + cc <= g.csize
    requires FileSector(g, chain, q) + cc <= |v| && i < 512 * cc
    ensures Joined(v, FileSector(g, chain, q), cc)[i] == ByteAt(g, v, chain, n, 512 * q + i)
  {
    hide Geometry.Sound, ProperChain, Fits, HasSector, FileSector, SectorOffset;
    SectorBelow(g, chain, n, 512 * q + i);
    assert (512 * q + i) / 512 == q + i / 512;
    FileSectorRun(g, chain, q, i / 512);
  }

  /** Reading a run of sectors inside one cluster yields that part of the file. */
  lemma JoinedContent(g: Geometry, v: Volume, chain: seq<nat>, n: nat, q: nat, cc: nat)
    requires g.Sound() && |v| == g.nSectors && ProperChain(g, chain) && Fits(g, chain, n)
    requires 512 * (q + cc) <= n && HasSector(g, chain, q) && SectorOffset(g, q) + cc <= g.csize
    requires FileSector(g, chain, q) + cc <= |v|
    ensures Joined(v, FileSector(g, chain, q), cc) == Content(g, v, chain, n)[512 * q..512 * (q + cc)]
  {
    assert g.csize > 0;
    forall i | 0 <= i < 512 * cc
      ensures Joined(v, FileSector(g, chain, q), cc)[i] == ByteAt(g, v, chain, n, 512 * q + i)
    {
      JoinedByte(g, v, chain, n, q, cc, i);
    }
    hide Geometry.Sound, ProperChain, Fits, HasSector, FileSector, SectorOffset, ByteAt, Joined;
  }

  /** Writing a run of sectors inside one cluster overwrites that part of the file. */
  lemma PutByte(g: Geometry, v: Volume, chain: seq<nat>, n: nat, q: nat, data: seq<uint8>, cc: nat, i: nat)
    requires g.Sound() && |v| == g.nSectors && ProperChain(g, chain)
    requires |data| == 512 * cc && Fits(g, chain, n) && 512 * q + |data| <= n && i < |data|
    requires HasSector(g, chain, q) && SectorOffset(g, q) + cc <= g.csize
    requires FileSector(g, chain, q) + cc <= |v|
    ensures ByteAt(g, PutSectors(v, FileSector(g, chain, q), Chopped(data, cc)), chain, n, 512 * q + i) == data[i]
  {
    hide Geometry.Sound, ProperChain, Fits, HasSector, FileSector, SectorOffset, ByteAt, PutSectors, Content;
    ByteAfterPut(g, v, chain, n, q, Chopped(data, cc), 512 * q + i);
  }

  lemma PutContent(g: Geometry, v: Volume, chain: seq<nat>, n: nat, q: nat, data: seq<uint8>, cc: nat)
    requires g.Sound() && |v| == g.nSectors && ProperChain(g, chain)
    requires |data| == 512 * cc && 512 * q <= n && Fits(g, chain, n) && Fits(g, chain, Max(n, 512 * q + |data|))
    requires HasSector(g, chain, q) && SectorOffset(g, q) + cc <= g.csize
    requires FileSector(g, chain, q) + cc <= |v|
    ensures Content(g, PutSectors(v, FileSector(g, chain, q), Chopped(data, cc)), chain, Max(n, 512 * q + |data|))
         == Overwrite(Content(g, v, chain, n), 512 * q, data)
  {
    var s, ds, n' := FileSector(g, chain, q), Chopped(data, cc), Max(n, 512 * q + |data|);
    var w := PutSectors(v, s, ds);
    hide Geometry.Sound, ProperChain, Fits, HasSector, FileSector, SectorOffset, ByteAt, PutSectors, Content;
    forall i | 0 <= i < |data| ensures ByteAt(g, w, chain, n', 512 * q + i) == data[i] {
      PutByte(g, v, chain, n', q, data, cc, i);
    }
    forall k | 0 <= k < n && !(512 * q <= k < 512 * q + |data|)
      ensures ByteAt(g, w, chain, n', k) == ByteAt(g, v, chain, n, k)
    {
      ByteAfterPut(g, v, chain, n', q, ds, k);
      ByteOfSize(g, v, chain, n, n', k);
    }
    ContentOverwritten(g, v, w, chain, n, 512 * q, data);
  }

  lemma ByteOfSize(g: Geometry, v: Volume, chain: seq<nat>, n: nat, m: nat, k: nat)
    requires g.Sound() && |v| == g.nSectors && ProperChain(g, chain)
    requires Fits(g, chain, n) && Fits(g, chain, m) && k < n && k < m
    ensures ByteAt(g, v, chain, n, k) == ByteAt(g, v, chain, m, k)
  {
  }

  /** Writing part of one sector, whose other bytes below the file size are the old ones. */
  lemma PatchContent(g: Geometry, v: Volume, chain: seq<nat>, n: nat, pos: nat, data: seq<uint8>, d: Sector)
    requires g.Sound() && |v| == g.nSectors && ProperChain(g, chain) && pos <= n
    requires pos % 512 + |data| <= 512 && Fits(g, chain, n) && Fits(g, chain, Max(n, pos + |data|))
    requires HasSector(g, chain, pos / 512) && FileSector(g, chain, pos / 512) < |v|
    requires forall i | 0 <= i < |data| :: d[pos % 512 + i] == data[i]
    requires forall o | 0 <= o < 512 && !(pos % 512 <= o < pos % 512 + |data|) && pos / 512 * 512 + o < n ::
      d[o] == v[FileSector(g, chain, pos / 512)][o]
    ensures Content(g, v[FileSector(g, chain, pos / 512) := d], chain, Max(n, pos + |data|))
         == Overwrite(Content(g, v, chain, n), pos, data)
  {
    var q, n' := pos / 512, Max(n, pos + |data|);
    var s := FileSector(g, chain, q);
    var w := v[s := d];
    assert w == PutSectors(v, s, [d]);
    forall k | 0 <= k < n'
      ensures ByteAt(g, w, chain, n', k) == if k / 512 == q then d[k % 512] else ByteAt(g, v, chain, n', k)
    {
      ByteAfterPut(g, v, chain, n', q, [d], k);
    }
    forall k | 0 <= k < n && !(pos <= k < pos + |data|)
      ensures ByteAt(g, w, chain, n', k) == ByteAt(g, v, chain, n, k)
    {
      ByteOfSize(g, v, chain, n, n', k);
    }
    hide Geometry.Sound, ProperChain, Fits, HasSector, FileSector, ByteAt, PutSectors, Content;
    ContentOverwritten(g, v, w, chain, n, pos, data);
  }
}
