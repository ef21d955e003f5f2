/** An open file: a byte stream over a cluster chain, with a private one-sector buffer. */
module FilObject {
  import opened MachineInts
  import opened FatGeometry
  import opened FatEntries
  import opened FatChains
  import opened FatAlloc
  import opened FileLayout
  import opened FileState
  import opened FatfsVolume
  import opened ByteStream

  class Fil {
    const fs: Fatfs
    const buf: array<uint8>
    const canRead: bool
    const canWrite: bool
    var objsize: nat
    var sclust: nat
    var fptr: nat
    var clust: nat
    var sect: nat
    var dirty: bool
    var modified: bool
    ghost var file: Placement
    ghost const area: set<nat>

    /** The volume, the window and the buffer are consistent. */
    ghost predicate BufferOk()
      reads this`dirty, this`sect, buf, fs`disk, fs`wflag, fs`winsect, fs.win
      ensures BufferOk() ==> fs.Valid() && buf.Length == 512 && buf != fs.win && fs.geo.csize > 0
    {
      && fs.Valid()
      && buf.Length == 512 && buf != fs.win
      && (forall c | c in area :: fs.geo.ValidCluster(c))
      && !AreaHas(fs.geo, area, fs.winsect)
      && (sect != 0 ==> AreaHas(fs.geo, area, sect) && sect < fs.geo.nSectors)
      && (dirty ==> sect != 0)
      && (!dirty && sect != 0 ==> buf[..] == fs.View()[sect])
    }

    /** The volume with everything buffered written back. */
    ghost function Synced(): (v: Volume)
      reads this`dirty, this`sect, buf, fs`disk, fs`wflag, fs`winsect, fs.win
      requires BufferOk()
      ensures |v| == fs.geo.nSectors
    {
      if dirty then fs.View()[sect := buf[..]] else fs.View()
    }

    /** The file object f_open leaves for an existing file of this size whose directory entry
        names sclust: nothing buffered, the pointer at the top. */
    constructor (fs: Fatfs, size: nat, sclust: nat, canRead: bool, canWrite: bool, ghost file: Placement)
      requires fs.Valid() && file.g == fs.geo
      requires (forall c | c in file.area :: fs.geo.ValidCluster(c)) && !AreaHas(fs.geo, file.area, fs.winsect)
      requires fs.FreeKnown() && file.Ok(fs.Fat(), size, sclust)
      ensures this.fs == fs && fresh(buf) && this.file == file
      ensures Valid() && Synced() == fs.View()
      ensures objsize == size && this.sclust == sclust && fptr == 0
      ensures this.canRead == canRead && this.canWrite == canWrite
    {
      hide Placement.Ok, Placement.On, AreaHas, Placement.Has, Placement.Sector, Fatfs.FreeKnown, Fatfs.Valid,
        Fatfs.View;
      this.fs := fs;
      buf := new uint8[512](i => 0);
      this.canRead, this.canWrite := canRead, canWrite;
      objsize, this.sclust := size, sclust;
      fptr, clust, sect, dirty, modified := 0, 0, 0, false, false;
      this.file, area := file, file.area;
    }

    /** Writes the dirty buffer to its sector. */
    method FlushBuffer()
      requires BufferOk()
      modifies this`dirty, fs`disk
      ensures BufferOk() && !dirty
      ensures Synced() == old(Synced()) && fs.Fat() == old(fs.Fat())
    {
      if dirty {
        AreaSector(fs.geo, area, sect);
        fs.WriteSectors(sect, [buf[..]]);
        dirty := false;
      }
    }

    /** Reads sector s into the clean buffer. */
    method LoadBuffer(s: nat)
      requires BufferOk() && !dirty && AreaHas(fs.geo, area, s)
      modifies this`sect, buf
      ensures BufferOk() && sect == s
      ensures Synced() == old(Synced())
    {
      AreaSector(fs.geo, area, s);
      fs.DataOnDisk(s);
      forall i | 0 <= i < 512 {
        buf[i] := fs.disk[s][i];
      }
      sect := s;
      assert buf[..] == fs.disk[s];
    }

    /** Makes s the buffered sector, copies data into the buffer at o and marks it dirty. */
    method PatchBuffer(s: nat, o: nat, data: seq<uint8>)
      requires BufferOk() && AreaHas(fs.geo, area, s) && o + |data| <= 512
      requires dirty ==> s == sect
      modifies this`sect, this`dirty, buf
      ensures BufferOk() && sect == s && dirty
      ensures buf[..] == Splice(old(buf[..]), o, data)
      ensures s < fs.geo.nSectors && Synced() == old(Synced())[s := Splice(old(buf[..]), o, data)]
    {
      AreaSector(fs.geo, area, s);
      sect := s;
      forall i | 0 <= i < |data| {
        buf[o + i] := data[i];
      }
      dirty := true;
      assert buf[..] == Splice(old(buf[..]), o, data);
    }

    /** disk_read of cc sectors, with the dirty buffer patched in. */
    method ReadDirect(s: nat, cc: nat) returns (data: seq<uint8>)
      requires BufferOk() && s + cc <= fs.geo.nSectors
      requires forall i | s <= i < s + cc :: AreaHas(fs.geo, area, i)
      ensures data == Joined(Synced(), s, cc)
    {
      forall i | s <= i < s + cc ensures fs.disk[i] == fs.View()[i] {
        AreaSector(fs.geo, area, i);
        fs.DataOnDisk(i);
      }
      data := Joined(fs.disk, s, cc);
      if dirty && Sub32(sect, s) < cc {
        RunOffset(s, cc, sect);
        data := Splice(data, 512 * Sub32(sect, s), buf[..]);
        SpliceJoined(fs.View(), s, cc, sect, buf[..]);
      } else if dirty {
        RunOffset(s, cc, sect);
      }
    }

    /** disk_write of cc sectors; a buffered sector among them is refreshed. */
    method WriteDirect(s: nat, data: seq<uint8>, cc: nat)
      requires BufferOk() && !dirty && s + cc <= fs.geo.nSectors && 512 * cc <= |data| && cc > 0
      requires forall i | s <= i < s + cc :: AreaHas(fs.geo, area, i)
      modifies this`dirty, fs`disk, buf
      ensures BufferOk() && !dirty && fs.Fat() == old(fs.Fat())
      ensures Synced() == PutSectors(old(Synced()), s, Chopped(data, cc))
    {
      hide AreaHas, Fatfs.Valid, Fatfs.View, Table, Entry, Geometry.Sound, Sub32, PutSectors, Chopped;
      AreaSector(fs.geo, area, s);
      SectorsBounded(fs.geo);
      fs.WriteSectors(s, Chopped(data, cc));
      RefreshBuffer(s, data, cc);
    }

    /** The buffer follows a run of sectors that has been written past it. */
    method RefreshBuffer(s: nat, data: seq<uint8>, cc: nat)
      requires buf.Length == 512 && !dirty && s + cc <= TWO32 && sect < TWO32 && 512 * cc <= |data|
      modifies this`dirty, buf
      ensures !dirty && buf[..] == if s <= sect < s + cc then Chopped(data, cc)[sect - s] else old(buf[..])
    {
      hide Sub32, Chopped;
      RunOffset(s, cc, sect);
      if Sub32(sect, s) < cc {
        var k: nat := Sub32(sect, s);
        forall i | 0 <= i < 512 {
          buf[i] := data[512 * k + i];
        }
        assert buf[..] == data[512 * k..512 * k + 512];
        dirty := false;
      }
    }

    // ----- the byte stream -----

    ghost predicate Valid()
      reads this, buf, fs, fs.win
      ensures Valid() ==> BufferOk() && fptr <= objsize < TWO32
    {
      && BufferOk()
      && fs.FreeKnown()
      && file.g == fs.geo && file.area == area
      && file.Ok(fs.Fat(), objsize, sclust)
      && file.Cursor(objsize, fptr, clust, sect)
    }

    /** The bytes of the file. */
    ghost function Contents(): (c: seq<uint8>)
      reads this, buf, fs, fs.win
      requires Valid()
      ensures |c| == objsize
    {
      BytesLength(file, fs.Fat(), Synced(), objsize, sclust);
      file.Bytes(Synced(), objsize)
    }

    /** The file as a byte stream. */
    ghost function AsStream(): Stream
      reads this, buf, fs, fs.win
      requires Valid()
    {
      Stream(Contents(), fptr)
    }

    /** Valid, except that clust is already the cluster of the byte at fptr. */
    ghost predicate Positioned()
      reads this, buf, fs, fs.win
      ensures Positioned() ==> BufferOk() && fptr <= objsize
    {
      && BufferOk()
      && fs.FreeKnown()
      && file.g == fs.geo && file.area == area
      && file.Ok(fs.Fat(), objsize, sclust)
      && file.On(objsize, fptr, clust)
    }

    /** The bytes of the file from a to b. */
    ghost function Range(a: nat, b: nat): seq<uint8>
      reads this, buf, fs, fs.win
      requires BufferOk()
    {
      var c := file.Bytes(Synced(), objsize);
      if a <= b <= |c| then c[a..b] else []
    }

    /** The pointer has moved over data, which is what the file holds there, and the file
        is as before. */
    twostate predicate Delivered(data: seq<uint8>)
      reads this, buf, fs, fs.win
    {
      && old(BufferOk()) && Valid()
      && Synced() == old(Synced())
      && fs.Fat() == old(fs.Fat())
      && fptr == old(fptr) + |data|
      && |data| > 0
      && data == Range(old(fptr), fptr)
    }

    /** get_fat as the file functions call it: neither the volume nor the buffer change. */
    method FollowChain(c: nat) returns (clst: nat)
      requires BufferOk() && fs.geo.ValidCluster(c)
      modifies fs`disk, fs`wflag, fs`winsect, fs.win
      ensures BufferOk() && fs.Fat() == old(fs.Fat()) && Synced() == old(Synced())
      ensures clst == fs.Fat()[c]
      ensures old(fs.FreeKnown()) ==> fs.FreeKnown()
    {
      clst := fs.GetFat(c);
      WindowAside(fs.geo, area, fs.winsect);
    }

    /** The buffer shows its sector of the file. */
    lemma BufferedSector()
      requires BufferOk() && sect != 0
      ensures sect < |Synced()| && buf[..] == Synced()[sect]
    {
    }

    /** On a sector boundary, makes clust the cluster of fptr, following the chain where a
        cluster begins. The FR_INT_ERR abort of f_read on clst < 2 is not reached. */
    method AdvanceRead()
      requires Valid() && fptr < objsize && fptr % 512 == 0
      modifies this`clust, fs`disk, fs`wflag, fs`winsect, fs.win
      ensures Positioned() && fs.Fat() == old(fs.Fat())
      ensures Synced() == old(Synced())
    {
      hide BufferOk, Synced, Fatfs.FreeKnown, Placement.Ok, Placement.On, Placement.Cursor, SectorOffset;
      AdvanceFacts(file, fs.Fat(), objsize, sclust, fptr, clust, sect);
      var csect := SectorOffset(fs.geo, fptr / 512);
      if csect == 0 {
        var clst := sclust;
        if fptr != 0 {
          clst := FollowChain(clust);
        }
        clust := clst;
      }
      OnFacts(file, fs.Fat(), objsize, sclust, fptr, clust);
      assert clust >= 2;
    }

    /** The sector of fptr in cluster clust. The FR_INT_ERR aborts of f_read and f_write on sector 0
        are not reached. */
    method CurrentSector() returns (s: nat)
      requires Positioned()
      ensures s == file.Sector(fptr / 512) && AreaHas(fs.geo, area, s) && s != 0
    {
      hide BufferOk, SectorOffset, Geometry.ClusterBase, Fatfs.FreeKnown, Placement.Ok, Placement.On, Placement.Sector,
        AreaHas;
      OnFacts(file, fs.Fat(), objsize, sclust, fptr, clust);
      s := fs.Clst2Sect(clust);
      assert s != 0;
      s := s + SectorOffset(fs.geo, fptr / 512);
    }

    /** Makes s the buffered sector, reading it unless it is buffered already. */
    method LoadSector(s: nat)
      requires BufferOk() && AreaHas(fs.geo, area, s)
      modifies this`sect, this`dirty, buf, fs`disk
      ensures BufferOk() && sect == s && fs.Fat() == old(fs.Fat())
      ensures Synced() == old(Synced())
      ensures old(fs.FreeKnown()) ==> fs.FreeKnown()
    {
      hide BufferOk, Synced, AreaHas;
      if sect != s {
        FlushBuffer();
        LoadBuffer(s);
      }
    }

    /** One round of the loop of f_read: a run of whole sectors of the cluster read directly,
        or a part of one sector through the buffer. */
    method ReadStep(btr: nat) returns (data: seq<uint8>)
      requires Valid() && 0 < btr <= objsize - fptr
      modifies this`clust, this`sect, this`dirty, this`fptr, buf
      modifies fs`disk, fs`wflag, fs`winsect, fs.win
      ensures Delivered(data) && |data| <= btr
    {
      hide BufferOk, Synced, Fatfs.FreeKnown, Placement.Ok, Placement.On, Placement.Cursor, Placement.Bytes,
        AreaHas, Placement.Sector;
      if fptr % 512 == 0 {
        AdvanceRead();
        var s := CurrentSector();
        var cc := btr / 512;
        if cc > 0 {
          data := ReadRun(s, cc);
          return;
        }
        LoadSector(s);
      } else {
        InsideSector(file, objsize, fptr, clust, sect);
        OnFacts(file, fs.Fat(), objsize, sclust, fptr, clust);
      }
      data := ReadBuffered(btr);
    }

    /** f_read: up to btr bytes from the pointer on, fewer at the end of the file. */
    method Read(btr: nat) returns (res: FResult, data: seq<uint8>)
      requires Valid()
      modifies this`clust, this`sect, this`dirty, this`fptr, buf
      modifies fs`disk, fs`wflag, fs`winsect, fs.win
      ensures Valid() && Contents() == old(Contents()) && fs.Fat() == old(fs.Fat())
      ensures Synced() == old(Synced())
      ensures !canRead ==> res == FrDenied && data == [] && fptr == old(fptr)
      ensures canRead ==> res == FrOk && Step(old(AsStream()), ReadCall(btr, data), AsStream())
    {
      hide BufferOk, Synced, Fatfs.FreeKnown, Placement.Ok, Placement.Cursor, Placement.Bytes;
      data := [];
      if !canRead {
        return FrDenied, [];
      }
      var remain := objsize - fptr;
      var n := if btr > remain then remain else btr;
      RangeJoin(fptr, fptr, fptr);
      while n > 0
        invariant Valid() && 0 <= n <= objsize - fptr
        invariant fptr + n == if old(fptr) + btr < objsize then old(fptr) + btr else objsize
        invariant Synced() == old(Synced()) && fs.Fat() == old(fs.Fat())
        invariant old(fptr) <= fptr && data == Range(old(fptr), fptr)
      {
        ghost var at := fptr;
        var part := ReadStep(n);
        RangeJoin(old(fptr), at, fptr);
        data := data + part;
        n := n - |part|;
      }
      res := FrOk;
    }

    /** Adjacent parts of the file make one part. */
    lemma RangeJoin(a: nat, b: nat, c: nat)
      requires Valid() && a <= b <= c <= objsize
      ensures Range(a, b) + Range(b, c) == Range(a, c)
      ensures Range(a, a) == []
      ensures Range(a, c) == Contents()[a..c]
    {
      hide BufferOk, Synced, Fatfs.FreeKnown, Placement.Ok, Placement.Cursor, Placement.Bytes;
      BytesLength(file, fs.Fat(), Synced(), objsize, sclust);
    }

    /** The direct transfer of f_read: at most cc0 sectors, clipped at the end of the cluster. */
    method ReadRun(s: nat, cc0: nat) returns (data: seq<uint8>)
      requires Positioned() && fptr % 512 == 0 && s == file.Sector(fptr / 512)
      requires 0 < cc0 && fptr + 512 * cc0 <= objsize
      modifies this`fptr
      ensures Delivered(data) && |data| <= 512 * cc0
    {
      hide BufferOk, Synced, Fatfs.FreeKnown, Placement.Ok, Placement.On, Placement.Cursor, Placement.Bytes,
        AreaHas, Placement.Sector, SectorOffset;
      var cc := cc0;
      var csect := SectorOffset(fs.geo, fptr / 512);
      if csect + cc > fs.geo.csize {
        cc := fs.geo.csize - csect;
      }
      RunFacts(file, fs.Fat(), Synced(), objsize, sclust, fptr, clust, sect, cc);
      data := ReadDirect(s, cc);
      fptr := fptr + 512 * cc;
    }

    /** The buffered transfer of f_read: what is wanted of the rest of the sector. */
    method ReadBuffered(btr: nat) returns (data: seq<uint8>)
      requires Positioned() && sect == file.Sector(fptr / 512) && sect != 0
      requires 0 < btr <= objsize - fptr
      modifies this`fptr
      ensures Delivered(data) && |data| <= btr
    {
      hide BufferOk, Synced, Fatfs.FreeKnown, Placement.Ok, Placement.On, Placement.Cursor, Placement.Bytes,
        AreaHas, Placement.Sector;
      var o := fptr % 512;
      var rcnt := 512 - o;
      if rcnt > btr {
        rcnt := btr;
      }
      BufferedSector();
      PartFacts(file, fs.Fat(), Synced(), objsize, sclust, fptr, clust, rcnt);
      data := buf[o..o + rcnt];
      fptr := fptr + rcnt;
    }

    // ----- writing -----

    /** After a change of the FAT through the window, the buffer is as good as before. */
    twostate lemma BufferAfterFat()
      requires old(BufferOk()) && fs.Valid() && FatOnly(fs.geo, old(fs.View()), fs.View())
      requires fs.winsect == old(fs.winsect) || fs.geo.InFirstFat(fs.winsect)
      requires dirty == old(dirty) && sect == old(sect) && buf[..] == old(buf[..])
      ensures BufferOk() && SameOutsideFat(fs.geo, old(Synced()), Synced())
    {
      hide AreaHas, Fatfs.Valid, Fatfs.View, CopiesAgree, Geometry.InFirstFat, Geometry.InFat;
      WindowAside(fs.geo, area, fs.winsect);
      if sect != 0 {
        AreaSector(fs.geo, area, sect);
      }
    }

    /** What a call of create_chain behind cluster j - 1 of the file's chain leaves: the
        bytes of the file, the other files and everything outside the FAT are as before, and
        clst is cluster j of the chain, which may be one longer, or 0 on a full volume. */
    twostate predicate Grown(clst: nat, j: nat)
      reads this, buf, fs, fs.win
    {
      && old(BufferOk()) && BufferOk() && fs.FreeKnown()
      && SameOutsideFat(fs.geo, old(Synced()), Synced())
      && file == old(file).(chain := file.chain) && old(file).chain <= file.chain
      && file.Ok(fs.Fat(), objsize, if file.chain == [] then 0 else file.chain[0])
      && file.Bytes(Synced(), objsize) == old(file.Bytes(Synced(), objsize))
      && (clst == 0 ==> file == old(file) && j == |file.chain| && NoneFree(fs.Fat()))
      && (clst != 0 ==> clst >= 2 && j < |file.chain| && file.chain[j] == clst)
    }

    /** create_chain as the file functions call it. */
    method FollowOrStretch(c: nat, ghost j: nat) returns (clst: nat)
      requires BufferOk() && fs.FreeKnown()
      requires file.g == fs.geo && file.area == area && file.Ok(fs.Fat(), objsize, sclust)
      requires Precedes(file, c, j)
      modifies this`file, fs`disk, fs`wflag, fs`winsect, fs.win, fs`lastClst, fs`freeClst, fs`fsiDirty
      ensures Grown(clst, j)
    {
      hide BufferOk, Synced, Fatfs.View, Fatfs.Valid, Table, Entry, FreeCount, SameOutsideFat, FatOnly, Created, Linked,
        Placement.Ok, Placement.Bytes, Precedes, NoneFree;
      ghost var t, v, p, last, free := fs.Fat(), Synced(), file, fs.lastClst, fs.freeClst;
      clst := fs.CreateChain(c);
      BufferAfterFat();
      CreateFacts(p, t, objsize, sclust, last, free, c, j, clst);
      if NewlyLinked(t, c, clst) {
        GrowFacts(p, t, objsize, sclust, clst);
        file := p.(chain := p.chain + [clst]);
      }
      OkFacts(p, t, objsize, sclust);
      OkBytesKept(p, file.chain, t, fs.Fat(), v, Synced(), objsize, sclust,
        if file.chain == [] then 0 else file.chain[0]);
    }

    /** The file holds the same bytes, though its chain may have grown; nothing outside the
        FAT has changed. */
    twostate predicate StreamKept()
      reads this, buf, fs, fs.win
    {
      && old(BufferOk()) && BufferOk()
      && SameOutsideFat(fs.geo, old(Synced()), Synced())
      && file == old(file).(chain := file.chain) && old(file).chain <= file.chain
      && file.Bytes(Synced(), objsize) == old(file.Bytes(Synced(), objsize))
    }

    /** On a sector boundary, makes clust the cluster of fptr, allocating it if need be. The
        FR_INT_ERR abort of f_write on clst == 1 is not reached. */
    method AdvanceWrite() returns (full: bool)
      requires Valid() && fptr % 512 == 0
      modifies this`clust, this`sclust, this`file
      modifies fs`disk, fs`wflag, fs`winsect, fs.win, fs`lastClst, fs`freeClst, fs`fsiDirty
      ensures StreamKept()
      ensures full ==> Valid() && file == old(file) && sclust == old(sclust) && clust == old(clust)
      ensures full ==> NoneFree(fs.Fat())
      ensures !full ==> Positioned()
    {
      hide BufferOk, Synced, Fatfs.FreeKnown, Placement.Ok, Placement.On, Placement.Cursor, Placement.Bytes,
        SectorOffset, ClusterIndex,
        Precedes, Table, Entry, NoneFree, Isolated, SameOutsideFat;
      AdvanceWriteFacts(file, fs.Fat(), objsize, sclust, fptr, clust, sect);
      ghost var v, p := Synced(), file;
      OkFacts(p, fs.Fat(), objsize, sclust);
      SameRefl(fs.geo, v);
      full := false;
      var csect := SectorOffset(fs.geo, fptr / 512);
      if csect == 0 {
        ghost var j := ClusterIndex(fs.geo, fptr / 512);
        var clst := sclust;
        if fptr != 0 {
          clst := FollowOrStretch(clust, j);
        } else if clst == 0 {
          clst := FollowOrStretch(0, j);
        }
        if clst == 0 {
          return true;
        }
        assert clst != 1;
        clust := clst;
        if sclust == 0 {
          sclust := clst;
        }
        NowOn(file, objsize, fptr, clust);
        assert p.chain != [] ==> file.chain[0] == p.chain[0];
      }
    }

    /** data has been written at the pointer, which has moved behind it; the file has grown
        if need be, and nothing else has changed but the FAT and the clusters of its chain. */
    twostate predicate Wrote(data: seq<uint8>)
      reads this, buf, fs, fs.win
    {
      && old(BufferOk()) && Valid()
      && Isolated(fs.geo, ClustersOf(file.chain), old(Synced()), Synced())
      && file == old(file).(chain := file.chain) && old(file).chain <= file.chain
      && fptr == old(fptr) + |data| && objsize == Max(old(objsize), fptr)
      && old(fptr) <= |old(file.Bytes(Synced(), objsize))|
      && file.Bytes(Synced(), objsize) == Overwrite(old(file.Bytes(Synced(), objsize)), old(fptr), data)
    }

    ghost function Snapshot(): FileImage
      reads this, buf, fs, fs.win
      requires BufferOk()
    {
      FileImage(Synced(), file, objsize, fptr)
    }

    twostate lemma AsWrittenOnto(data: seq<uint8>)
      requires Wrote(data)
      ensures old(BufferOk()) && Valid() && fptr == old(fptr) + |data|
      ensures WrittenOnto(fs.geo, old(Snapshot()), Snapshot(), data)
    {
      hide BufferOk, Synced, Placement.Ok, Placement.Cursor, Placement.Bytes, Overwrite, Isolated;
    }

    twostate lemma AsWrote(data: seq<uint8>)
      requires old(BufferOk()) && Valid() && WrittenOnto(fs.geo, old(Snapshot()), Snapshot(), data)
      ensures Wrote(data)
    {
      hide BufferOk, Synced, Placement.Ok, Placement.Cursor, Placement.Bytes, Overwrite, Isolated;
    }

    /** The direct transfer of f_write: whole sectors, clipped at the end of the cluster. */
    method WriteRun(s: nat, wbuff: seq<uint8>) returns (w: nat)
      requires Positioned() && !dirty && fptr % 512 == 0 && s == file.Sector(fptr / 512)
      requires |wbuff| >= 512 && fptr + |wbuff| < TWO32
      modifies this`fptr, this`objsize, this`dirty, buf, fs`disk
      ensures 0 < w <= |wbuff| && Wrote(wbuff[..w])
    {
      hide BufferOk, Synced, Placement.Ok, Placement.On, Placement.Cursor, Placement.Bytes, Placement.Sector, AreaHas,
        SectorOffset, Table, Entry, Isolated, Overwrite, Chopped, PutSectors, Max;
      var cc := |wbuff| / 512;
      var csect := SectorOffset(fs.geo, fptr / 512);
      if csect + cc > fs.geo.csize {
        cc := fs.geo.csize - csect;
      }
      w := 512 * cc;
      ghost var v, data := Synced(), wbuff[..w];
      RunWriteFacts(file, fs.Fat(), v, objsize, sclust, fptr, clust, sect, data, cc);
      PutIsolated(fs.geo, ClustersOf(file.chain), v, s, Chopped(data, cc));
      ChoppedPrefix(wbuff, cc);
      WriteDirect(s, wbuff, cc);
      fptr := fptr + w;
      objsize := Max(objsize, fptr);
    }

    /** The buffered transfer of f_write: what fits in the rest of the sector. */
    method WriteBuffered(s: nat, wbuff: seq<uint8>) returns (w: nat)
      requires Positioned() && s == file.Sector(fptr / 512) && s != 0 && AreaHas(fs.geo, area, s)
      requires s == sect || (!dirty && fptr % 512 == 0 && fptr >= objsize)
      requires |wbuff| > 0 && fptr + |wbuff| < TWO32
      modifies this`fptr, this`objsize, this`sect, this`dirty, buf
      ensures 0 < w <= |wbuff| && Wrote(wbuff[..w])
    {
      hide BufferOk, Synced, Placement.Ok, Placement.On, Placement.Cursor, Placement.Bytes, Placement.Sector, AreaHas,
        Table, Entry, Isolated, Overwrite, Splice, Max, ClustersOf, Fatfs.FreeKnown, Fatfs.Valid, Fatfs.View;
      var o := fptr % 512;
      w := 512 - o;
      if w > |wbuff| {
        w := |wbuff|;
      }
      ghost var v, data, was := Synced(), wbuff[..w], buf[..];
      InOwnCluster(s);
      if s == sect {
        BufferedSector();
      }
      SectorInVolume(s);
      SpliceWriteFacts(file, fs.Fat(), v, objsize, sclust, fptr, clust, data, was, s == sect);
      PatchIsolated(fs.geo, ClustersOf(file.chain), v, s, Splice(was, o, data));
      PatchBuffer(s, o, wbuff[..w]);
      fptr := fptr + w;
      objsize := Max(objsize, fptr);
    }

    lemma InOwnCluster(s: nat)
      requires Positioned() && s == file.Sector(fptr / 512)
      ensures AreaHas(fs.geo, ClustersOf(file.chain), s)
    {
      hide BufferOk, Synced, Placement.Ok, Placement.On, Placement.Sector, AreaHas, Fatfs.FreeKnown;
      OnFacts(file, fs.Fat(), objsize, sclust, fptr, clust);
    }

    lemma SectorInVolume(s: nat)
      requires BufferOk() && AreaHas(fs.geo, area, s)
      ensures s < |Synced()|
    {
      AreaSector(fs.geo, area, s);
    }

    /** One round of the loop of f_write; nothing is written when the volume is full. */
    method WriteStep(wbuff: seq<uint8>) returns (w: nat)
      requires Valid() && |wbuff| > 0 && fptr + |wbuff| < TWO32
      modifies this`clust, this`sclust, this`file, this`fptr, this`objsize, this`sect, this`dirty, buf
      modifies fs`disk, fs`wflag, fs`winsect, fs.win, fs`lastClst, fs`freeClst, fs`fsiDirty
      ensures w <= |wbuff| && Wrote(wbuff[..w])
      ensures w == 0 ==> NoneFree(fs.Fat())
    {
      hide BufferOk, Synced, Placement.Ok, Placement.On, Placement.Cursor, Placement.Bytes, Placement.Sector, AreaHas,
        Table, Entry, Isolated, Overwrite, NoneFree, Max, ClustersOf, SameOutsideFat, Fatfs.Valid, Fatfs.View;
      ghost var v0 := Synced();
      MaxAbove(objsize, fptr);
      if fptr % 512 == 0 {
        var full := AdvanceWrite();
        ghost var v1 := Synced();
        FatIsolated(fs.geo, ClustersOf(file.chain), v0, v1);
        if full {
          BytesLength(file, fs.Fat(), v1, objsize, sclust);
          OverwriteNothing(file.Bytes(v1, objsize), fptr);
          assert wbuff[..0] == [];
          return 0;
        }
        FlushBuffer();
        var s := CurrentSector();
        if |wbuff| / 512 > 0 {
          w := WriteRun(s, wbuff);
        } else {
          if sect != s && fptr < objsize {
            LoadBuffer(s);
          }
          w := WriteBuffered(s, wbuff);
        }
        IsolatedTrans(fs.geo, file.chain, file.chain, v0, v1, Synced());
      } else {
        InsideSector(file, objsize, fptr, clust, sect);
        OnFacts(file, fs.Fat(), objsize, sclust, fptr, clust);
        w := WriteBuffered(sect, wbuff);
      }
    }

    /** f_write: all of wbuff is written from the pointer on, as far as the file size stays
        below 4 GiB and free clusters last. */
    method Write(wbuff: seq<uint8>) returns (res: FResult, bw: nat)
      requires Valid() && |wbuff| < TWO32
      modifies this`clust, this`sclust, this`file, this`fptr, this`objsize, this`sect, this`dirty, this`modified, buf
      modifies fs`disk, fs`wflag, fs`winsect, fs.win, fs`lastClst, fs`freeClst, fs`fsiDirty
      ensures bw <= WriteLimit(old(fptr), |wbuff|) && Wrote(wbuff[..bw])
      ensures Step(old(AsStream()), WriteCall(wbuff[..bw], NoneFree(fs.Fat())), AsStream())
      ensures !canWrite ==> res == FrDenied && bw == 0
      ensures canWrite ==> res == FrOk && modified
      ensures canWrite && bw < WriteLimit(old(fptr), |wbuff|) ==> NoneFree(fs.Fat())
    {
      hide BufferOk, Synced, Placement.Ok, Placement.On, Placement.Cursor, Placement.Bytes, Table, Entry, Isolated,
        Overwrite, NoneFree, Max, Fatfs.FreeKnown, WrittenOnto, Wrote, Fatfs.Valid, Fatfs.View, Step;
      bw := 0;
      NothingWritten();
      AsWrittenOnto([]);
      assert wbuff[..0] == [];
      if !canWrite {
        WroteIsStep([]);
        return FrDenied, 0;
      }
      var btw := |wbuff|;
      if (fptr + btw) % TWO32 < fptr {
        btw := 0xFFFF_FFFF - fptr;
      }
      LimitFacts(fptr, |wbuff|, btw);
      while btw > 0
        invariant 0 <= btw && bw + btw == WriteLimit(old(fptr), |wbuff|) && bw + btw <= |wbuff|
        invariant Valid() && fptr == old(fptr) + bw && fptr + btw < TWO32
        invariant WrittenOnto(fs.geo, old(Snapshot()), Snapshot(), wbuff[..bw])
      {
        ghost var was := Snapshot();
        label Before:
        var w := WriteStep(wbuff[bw..bw + btw]);
        assert wbuff[bw..bw + btw][..w] == wbuff[bw..bw + w];
        assert wbuff[..bw] + wbuff[bw..bw + w] == wbuff[..bw + w];
        AsWrittenOnto@Before(wbuff[bw..bw + w]);
        WrittenTwice(fs.geo, old(Snapshot()), was, Snapshot(), wbuff[..bw], wbuff[bw..bw + w]);
        if w == 0 {
          break;
        }
        bw := bw + w;
        btw := btw - w;
      }
      modified := true;
      res := FrOk;
      AsWrote(wbuff[..bw]);
      WroteIsStep(wbuff[..bw]);
    }

    twostate lemma WroteIsStep(data: seq<uint8>)
      requires old(Valid()) && Valid() && Wrote(data)
      ensures Step(old(AsStream()), WriteCall(data, NoneFree(fs.Fat())), AsStream())
    {
      hide BufferOk, Synced, Placement.Ok, Placement.Cursor, Overwrite, Isolated;
    }

    twostate lemma NothingWritten()
      requires Valid() && old(Valid()) && fptr == old(fptr) && objsize == old(objsize) && file == old(file)
          && Synced() == old(Synced())
      ensures Wrote([])
    {
      hide BufferOk, Synced, Placement.Ok, Placement.Cursor, Placement.Bytes, Overwrite, SameOutsideFat;
      SameRefl(fs.geo, Synced());
      FatIsolated(fs.geo, ClustersOf(file.chain), Synced(), Synced());
      BytesLength(file, fs.Fat(), Synced(), objsize, sclust);
      OverwriteNothing(file.Bytes(Synced(), objsize), fptr);
    }

    // ----- seeking -----

    /** Valid, except for the cursor fields. */
    ghost predicate Seeking()
      reads this, buf, fs, fs.win
      ensures Seeking() ==> BufferOk()
    {
      && BufferOk()
      && fs.FreeKnown()
      && file.g == fs.geo && file.area == area
      && file.Ok(fs.Fat(), objsize, sclust)
    }

    /** The start of f_lseek on a nonzero offset: from the current cluster if the target is
        not before it, otherwise from the first, which is allocated if there is none. fptr
        becomes the start of that cluster and rest the distance left; clst is 0 when there
        is no cluster to be had. */
    method SeekStart(ofs: nat) returns (clst: nat, rest: nat)
      requires Valid() && 0 < ofs
      modifies this`clust, this`sclust, this`file, this`fptr
      modifies fs`disk, fs`wflag, fs`winsect, fs.win, fs`lastClst, fs`freeClst, fs`fsiDirty
      ensures Seeking() && StreamKept()
      ensures clst == 0 ==> file == old(file) && fptr == 0 && objsize == 0 && !file.Has(0) && NoneFree(fs.Fat())
      ensures clst != 0 ==> file.Top(fptr, clst) && clust == clst && 0 < rest && fptr + rest == ofs
    {
      hide BufferOk, Synced, Fatfs.FreeKnown, Placement.Ok, Placement.Has, Placement.Cursor, Placement.Top,
        Placement.Bytes, Precedes, Table, Entry, NoneFree, Isolated, SameOutsideFat;
      ghost var v, p, t := Synced(), file, fs.Fat();
      SameRefl(fs.geo, v);
      TopStart(p, t, objsize, sclust);
      var ifptr := fptr;
      var bcs := 512 * fs.geo.csize;
      rest := ofs;
      if ifptr > 0 && (ofs - 1) / bcs >= (ifptr - 1) / bcs {
        TopHere(p, t, objsize, sclust, ifptr, clust, sect);
        StartBelow(ofs - 1, ifptr - 1, bcs);
        fptr := (ifptr - 1) - (ifptr - 1) % bcs;
        rest := ofs - fptr;
        clst := clust;
      } else {
        fptr := 0;
        clst := sclust;
        if clst == 0 {
          clst := FollowOrStretch(0, 0);
          if clst != 0 {
            NewTop(file, clst);
          }
          sclust := clst;
        }
        clust := clst;
      }
    }

    /** The cluster following loop of f_lseek: fptr advances by whole clusters while more than
        one is left to go, stretching the chain when the file may be written. When the volume
        is full, fptr stops at the end of the chain with nothing left to go. */
    method SeekFollow(dist: nat) returns (rest: nat, ghost base: nat)
      requires Seeking() && file.Top(fptr, clust) && 0 < dist && fptr + dist < TWO32
      requires canWrite || fptr + dist <= objsize
      modifies this`clust, this`file, this`fptr
      modifies fs`disk, fs`wflag, fs`winsect, fs.win, fs`lastClst, fs`freeClst, fs`fsiDirty
      ensures Seeking() && StreamKept() && file.Top(base, clust)
      ensures
        || (fptr == base && 0 < rest <= 512 * fs.geo.csize && fptr + rest == old(fptr) + dist)
        || (canWrite && rest == 0 && fptr == base + 512 * fs.geo.csize && fptr < old(fptr) + dist
            && !file.Has(fptr / 512) && NoneFree(fs.Fat()))
    {
      hide BufferOk, Synced, Fatfs.FreeKnown, Placement.Ok, Placement.Has, Placement.Top, Placement.Bytes,
        Precedes, Table, Entry, NoneFree, Isolated, SameOutsideFat, ClusterIndex;
      ghost var v0 := Synced();
      var bcs := 512 * fs.geo.csize;
      SameRefl(fs.geo, v0);
      rest := dist;
      base := fptr;
      while rest > bcs
        invariant Seeking() && StreamKept() && file.Top(fptr, clust)
        invariant base == fptr && 0 < rest && fptr + rest == old(fptr) + dist
      {
        ghost var v1 := Synced();
        var full := SeekNext();
        SameTrans(fs.geo, v0, v1, Synced());
        rest := rest - bcs;
        if full {
          rest := 0;
          break;
        }
        base := fptr;
      }
    }

    /** One cluster further; true when the volume is full. The FR_INT_ERR aborts of
        f_lseek on an invalid cluster are not reached. */
    method SeekNext() returns (full: bool)
      requires Seeking() && file.Top(fptr, clust) && fptr + 512 * fs.geo.csize < TWO32
      requires canWrite || fptr + 512 * fs.geo.csize < objsize
      modifies this`clust, this`file, this`fptr
      modifies fs`disk, fs`wflag, fs`winsect, fs.win, fs`lastClst, fs`freeClst, fs`fsiDirty
      ensures Seeking() && StreamKept() && fptr == old(fptr) + 512 * fs.geo.csize
      ensures full ==> canWrite && clust == old(clust) && file.Top(old(fptr), clust)
      ensures full ==> !file.Has(fptr / 512) && NoneFree(fs.Fat())
      ensures !full ==> file.Top(fptr, clust)
    {
      hide BufferOk, Synced, Fatfs.FreeKnown, Placement.Ok, Placement.Has, Placement.Top, Placement.Bytes,
        Precedes, Table, Entry, NoneFree, Isolated, SameOutsideFat, ClusterIndex, SectorOffset;
      ghost var v, p := Synced(), file;
      ghost var i := ClusterIndex(fs.geo, fptr / 512);
      StepFacts(p, fs.Fat(), objsize, sclust, fptr, clust);
      TopAligned(p, fptr, clust);
      StepPlace(fs.geo, fptr);
      SameRefl(fs.geo, v);
      fptr := fptr + 512 * fs.geo.csize;
      HasIndex(p, fptr / 512);
      var clst;
      if canWrite {
        clst := FollowOrStretch(clust, i + 1);
        assert file.chain[0] == p.chain[0];
        if clst == 0 {
          TopKept(p, file.chain, old(fptr), clust);
          return true;
        }
      } else {
        clst := FollowChain(clust);
      }
      NextTop(p, file, old(fptr), clust, clst);
      clust := clst;
      full := false;
    }

    /** The pointer is at target, or as near as a full volume allows; the file holds the same
        bytes as before, followed by whatever was on the clusters it has grown by. */
    twostate predicate Sought(target: nat)
      reads this, buf, fs, fs.win
    {
      && old(BufferOk()) && Valid()
      && SameOutsideFat(fs.geo, old(Synced()), Synced())
      && file == old(file).(chain := file.chain) && old(file).chain <= file.chain
      && fptr <= target && objsize == Max(old(objsize), fptr)
      && (fptr < target ==> canWrite && !file.Has(fptr / 512) && NoneFree(fs.Fat()))
      && old(objsize) <= objsize && |Contents()| == objsize
      && Contents()[..old(objsize)] == old(file.Bytes(Synced(), objsize))
    }

    /** Where the chain ends the file ends too. */
    lemma EndOfChain()
      requires Valid() && !file.Has(fptr / 512)
      ensures fptr == objsize
    {
      hide BufferOk, Synced, Placement.Cursor, Table, Entry, Fatfs.FreeKnown;
      OkFacts(file, fs.Fat(), objsize, sclust);
      if fptr < objsize {
        SectorBelow(file.g, file.chain, objsize, fptr);
      }
    }

    /** The end of f_lseek: fptr lands rest bytes further, the file grows if that is behind its
        end, and the sector of fptr is buffered unless fptr is on a boundary. */
    method SeekLand(rest: nat, ghost base: nat)
      requires Seeking() && file.Top(base, clust) && base < fptr + rest <= base + 512 * fs.geo.csize
      requires fptr + rest < TWO32 && (rest > 0 ==> base == fptr)
      requires rest == 0 ==> fptr == base + 512 * fs.geo.csize
      modifies this`fptr, this`objsize, this`modified, this`sect, this`dirty, buf, fs`disk
      ensures Valid() && fs.Fat() == old(fs.Fat()) && Synced() == old(Synced())
      ensures fptr == old(fptr) + rest && objsize == Max(old(objsize), fptr)
    {
      hide BufferOk, Synced, Placement.Ok, Placement.Has, Placement.Top, Placement.Cursor, Table, Entry, AreaHas,
        Geometry.ClusterBase;
      ghost var p, t, r := file, fs.Fat(), fptr + rest - base;
      ghost var at := fs.geo.ClusterBase(clust) + r / 512;
      MaxAbove(objsize, fptr + rest);
      SeekEndFacts(p, t, objsize, sclust, base, clust, r, at);
      SeekEndFacts(p, t, objsize, sclust, base, clust, r, sect);
      var nsect := 0;
      fptr := fptr + rest;
      if rest % 512 != 0 {
        nsect := fs.Clst2Sect(clust);
        assert nsect != 0;
        nsect := nsect + rest / 512;
      }
      if fptr > objsize {
        objsize := fptr;
        modified := true;
      }
      if fptr % 512 != 0 {
        LoadSector(nsect);
      }
    }

    /** f_lseek on a nonzero target, which is not clipped. */
    method SeekTo(ofs: nat)
      requires Valid() && 0 < ofs < TWO32 && (canWrite || ofs <= objsize)
      modifies this`clust, this`sclust, this`file, this`fptr, this`objsize, this`sect, this`dirty, this`modified, buf
      modifies fs`disk, fs`wflag, fs`winsect, fs.win, fs`lastClst, fs`freeClst, fs`fsiDirty
      ensures Sought(ofs)
    {
      hide BufferOk, Synced, Placement.Ok, Placement.Has, Placement.Top, Placement.Cursor, Placement.Bytes, Table,
        Entry, AreaHas, SameOutsideFat, NoneFree, Max;
      ghost var v0, p0, n0 := Synced(), file, objsize;
      MaxAbove(objsize, 0);
      MaxAbove(objsize, ofs);
      var clst, rest := SeekStart(ofs);
      ghost var v1 := Synced();
      if clst == 0 {
        CursorTop(file, objsize, clust, sect);
      } else {
        ghost var base;
        rest, base := SeekFollow(rest);
        SameTrans(fs.geo, v0, v1, Synced());
        MaxAbove(n0, fptr + rest);
        SeekLand(rest, base);
        BytesPrefix(file, fs.Fat(), Synced(), n0, objsize, sclust);
      }
    }

    /** f_lseek: moves the pointer. A file open for writing is extended when the target lies
        behind its end, as far as free clusters last; otherwise the target is clipped. */
    method Lseek(ofs0: nat)
      requires Valid() && ofs0 < TWO32
      modifies this`clust, this`sclust, this`file, this`fptr, this`objsize, this`sect, this`dirty, this`modified, buf
      modifies fs`disk, fs`wflag, fs`winsect, fs.win, fs`lastClst, fs`freeClst, fs`fsiDirty
      ensures Sought(if ofs0 > old(objsize) && !canWrite then old(objsize) else ofs0)
      ensures Step(old(AsStream()), SeekCall(ofs0, canWrite, NoneFree(fs.Fat())), AsStream())
    {
      hide BufferOk, Synced, Placement.Ok, Placement.Has, Placement.Top, Placement.Cursor, Placement.Bytes, Table,
        Entry, AreaHas, SameOutsideFat, NoneFree, Max;
      var ofs := ofs0;
      if ofs > objsize && !canWrite {
        ofs := objsize;
      }
      MaxAbove(objsize, 0);
      MaxAbove(objsize, ofs);
      if ofs == 0 {
        SameRefl(fs.geo, Synced());
        fptr := 0;
        CursorTop(file, objsize, clust, sect);
        return;
      }
      SeekTo(ofs);
      if fptr < ofs {
        EndOfChain();
      }
    }

    // ----- truncating -----

    /** remove_chain as f_truncate calls it: frees the chain from cluster k on. */
    method CutChainAt(clst: nat, pclst: nat, ghost k: nat, ghost n: nat) returns (res: FResult)
      requires BufferOk() && fs.FreeKnown()
      requires file.g == fs.geo && file.area == area && file.Ok(fs.Fat(), objsize, sclust)
      requires k < |file.chain| && clst == file.chain[k] && pclst == if k == 0 then 0 else file.chain[k - 1]
      requires n <= objsize && Fits(fs.geo, file.chain[..k], n)
      modifies this`file, fs, fs.win
      ensures BufferOk() && fs.FreeKnown() && res == FrOk
      ensures SameOutsideFat(fs.geo, old(Synced()), Synced())
      ensures file == old(file).(chain := old(file).chain[..k])
      ensures file.Ok(fs.Fat(), n, if k == 0 then 0 else sclust)
    {
      hide BufferOk, Synced, Fatfs.View, Fatfs.Valid, Fatfs.FreeKnown, Table, Entry, FreeCount, SameOutsideFat, FatOnly,
        Placement.Ok, Removed, RemoveAllowed, Fits;
      CutFacts(file, fs.Fat(), objsize, sclust, k, n);
      ghost var p := file;
      res := fs.RemoveChain(clst, pclst);
      BufferAfterFat();
      file := p.(chain := p.chain[..k]);
    }

    /** What f_truncate leaves: the file ends at the pointer. */
    twostate predicate Truncated()
      reads this, buf, fs, fs.win
    {
      && old(BufferOk()) && Valid()
      && SameOutsideFat(fs.geo, old(Synced()), Synced())
      && file == old(file).(chain := file.chain) && file.chain <= old(file).chain
      && fptr == objsize == old(fptr)
      && FirstPart(Contents(), old(file.Bytes(Synced(), objsize)), fptr)
    }

    /** f_truncate: the file ends at the pointer, and the clusters behind it are free again. */
    method Truncate() returns (res: FResult)
      requires Valid()
      modifies this`sclust, this`file, this`objsize, this`dirty, this`modified, fs, fs.win
      ensures Valid()
      ensures !canWrite ==> res == FrDenied && Contents() == old(Contents())
      ensures canWrite ==> res == FrOk && Truncated() && Step(old(AsStream()), TruncateCall, AsStream())
    {
      hide BufferOk, Synced, Placement.Ok, Placement.Cursor, Placement.Bytes, Table, Entry, Isolated, SameOutsideFat;
      if !canWrite {
        return FrDenied;
      }
      res := FrOk;
      ghost var v, p, t, c := Synced(), file, fs.Fat(), sclust;
      SameRefl(fs.geo, v);
      BytesLength(p, t, v, objsize, c);
      if fptr < objsize {
        res := TruncateChain();
        BytesOfCut(p, file.chain, t, fs.Fat(), v, Synced(), old(objsize), objsize, c, sclust);
        modified := true;
        FlushBuffer();
      }
    }

    /** Cuts the chain behind the cluster of the pointer and sets the size. */
    method TruncateChain() returns (res: FResult)
      requires Valid() && fptr < objsize
      modifies this`sclust, this`file, this`objsize, fs, fs.win
      ensures Valid() && objsize == fptr && res == FrOk
      ensures SameOutsideFat(fs.geo, old(Synced()), Synced())
      ensures file == old(file).(chain := file.chain) && file.chain <= old(file).chain
    {
      hide BufferOk, Synced, Fatfs.FreeKnown, Placement.Ok, Placement.Cursor, Table, Entry, SameOutsideFat, Fits,
        ClusterIndex;
      ghost var v, p, t := Synced(), file, fs.Fat();
      res := FrOk;
      SameRefl(fs.geo, v);
      if fptr == 0 {
        TruncTop(p, t, objsize, sclust);
        res := CutChainAt(sclust, 0, 0, 0);
        sclust := 0;
        CursorTop(file, 0, clust, sect);
      } else {
        TruncFacts(p, t, objsize, sclust, fptr, clust, sect);
        ghost var k := ClusterIndex(fs.geo, (fptr - 1) / 512) + 1;
        var ncl := FollowChain(clust);
        if ncl < fs.geo.nFatent {
          res := CutChainAt(ncl, clust, k, fptr);
        } else {
          OkShrink(p, t, objsize, sclust, fptr);
          assert p.chain[..k] == p.chain;
        }
      }
      objsize := fptr;
    }
  }

  /** A call of a file function. */
  datatype Command =
    | DoRead(btr: nat)
    | DoWrite(wbuff: seq<uint8>)
    | DoSeek(ofs: nat)
    | DoTruncate

  /** What the functions take: lengths and offsets are 32-bit numbers. */
  predicate Proper(c: Command) {
    (c.DoWrite? ==> |c.wbuff| < TWO32) && (c.DoSeek? ==> c.ofs < TWO32)
  }

  /** e is what this call does on the byte stream s of f; a denied call reads nothing. A write accepts all bytes
      below the size limit unless the volume is full. */
  ghost predicate Performs(f: Fil, s: Stream, c: Command, e: Event) {
    match c
    case DoRead(btr) => if f.canRead then e.ReadCall? && e.count == btr else e == ReadCall(0, [])
    case DoWrite(wbuff) =>
      && e.WriteCall? && e.data <= wbuff
      && if f.canWrite then Accepted(s.pos, |wbuff|, |e.data|, e.full) else e.data == []
    case DoSeek(ofs) => e.SeekCall? && e.target == ofs && e.writable == f.canWrite
    case DoTruncate => e == if f.canWrite then TruncateCall else ReadCall(0, [])
  }

  predicate Accepted(pos: nat, wanted: nat, written: nat, full: bool) {
    pos < TWO32 && wanted < TWO32 && (written == WriteLimit(pos, wanted) || (full && written < WriteLimit(pos, wanted)))
  }

  lemma NoRead(s: Stream)
    requires s.pos <= |s.bytes|
    ensures Step(s, ReadCall(0, []), s)
  {
    assert s.bytes[s.pos..s.pos] == [];
  }

  lemma StreamOf(f: Fil)
    requires f.Valid()
    ensures f.AsStream() == Stream(f.Contents(), f.fptr) && f.fptr <= |f.Contents()| && f.fs.Valid()
  {
    hide Fil.BufferOk, Fil.Synced, Placement.Ok, Placement.Cursor, Placement.Bytes;
  }

  /** One call of a file function. */
  method Perform(f: Fil, c: Command) returns (ghost e: Event)
    requires f.Valid() && Proper(c)
    modifies f, f.buf, f.fs, f.fs.win
    ensures e.WriteCall? || e.SeekCall? ==> f.Valid() && e.full == NoneFree(f.fs.Fat())
    ensures f.Valid() && Performs(f, old(f.AsStream()), c, e) && Step(old(f.AsStream()), e, f.AsStream())
  {
    hide Fil.Valid, Fil.BufferOk, Fil.Synced, Fil.AsStream, Fil.Contents, Step, Fil.Truncated, NoneFree, Isolated,
      SameOutsideFat, Placement.Bytes, Overwrite;
    StreamOf(f);
    ghost var s := f.AsStream();
    NoRead(s);
    match c
    case DoRead(btr) =>
      var res, data := f.Read(btr);
      StreamOf(f);
      e := ReadCall(if f.canRead then btr else 0, data);
    case DoWrite(wbuff) =>
      var res, bw := f.Write(wbuff);
      StreamOf(f);
      e := WriteCall(wbuff[..bw], NoneFree(f.fs.Fat()));
    case DoSeek(ofs) =>
      f.Lseek(ofs);
      StreamOf(f);
      e := SeekCall(ofs, f.canWrite, NoneFree(f.fs.Fat()));
    case DoTruncate =>
      var res := f.Truncate();
      StreamOf(f);
      e := if f.canWrite then TruncateCall else ReadCall(0, []);
  }

  /** Any sequence of calls on an open file is a run of the byte stream. */
  method PerformAll(f: Fil, cs: seq<Command>) returns (ghost ss: seq<Stream>, ghost es: seq<Event>)
    requires f.Valid() && forall i | 0 <= i < |cs| :: Proper(cs[i])
    modifies f, f.buf, f.fs, f.fs.win
    ensures f.Valid() && Run(ss, es) && |es| == |cs|
    ensures ss[0] == old(f.AsStream()) && ss[|es|] == f.AsStream()
    ensures forall i | 0 <= i < |cs| :: Performs(f, ss[i], cs[i], es[i])
  {
    hide Fil.Valid, Fil.AsStream, Step, Proper, Performs;
    ss, es := [f.AsStream()], [];
    for n := 0 to |cs|
      invariant f.Valid() && Run(ss, es) && |es| == n
      invariant ss[0] == old(f.AsStream()) && ss[n] == f.AsStream()
      invariant forall i | 0 <= i < n :: Performs(f, ss[i], cs[i], es[i])
    {
      ghost var e := Perform(f, cs[n]);
      ss, es := ss + [f.AsStream()], es + [e];
    }
  }

  /** A window over the FAT shows no sector of the file area. */
  lemma WindowAside(g: Geometry, area: set<nat>, s: nat)
    requires g.Sound() && (forall c | c in area :: g.ValidCluster(c)) && s < g.nSectors
    ensures g.InFirstFat(s) ==> !AreaHas(g, area, s)
  {
    if AreaHas(g, area, s) {
      AreaSector(g, area, s);
    }
  }

  lemma SectorsBounded(g: Geometry)
    requires g.Sound()
    ensures g.nSectors <= TWO32
  {
  }

  /** The unsigned test for a sector inside a run. */
  lemma RunOffset(s: nat, cc: nat, sect: nat)
    requires s + cc <= TWO32 && sect < TWO32
    ensures Sub32(sect, s) < cc <==> s <= sect < s + cc
    ensures s <= sect ==> Sub32(sect, s) == sect - s
  {
  }

  lemma SpliceJoined(v: Volume, s: nat, cc: nat, x: nat, b: Sector)
    requires s + cc <= |v| && s <= x < s + cc
    ensures 512 * (x - s) + 512 <= 512 * cc
    ensures Splice(Joined(v, s, cc), 512 * (x - s), b) == Joined(v[x := b], s, cc)
  {
  }

  lemma ChoppedPrefix(data: seq<uint8>, cc: nat)
    requires 512 * cc <= |data|
    ensures Chopped(data, cc) == Chopped(data[..512 * cc], cc)
  {
    forall i | 0 <= i < cc ensures Chopped(data, cc)[i] == Chopped(data[..512 * cc], cc)[i] {
      assert data[..512 * cc][512 * i..512 * i + 512] == data[512 * i..512 * i + 512];
    }
  }

  /** The buffer after a partial write holds the written bytes, and the old ones where the
      file had any. */
  lemma SpliceFacts(was: Sector, o: nat, data: seq<uint8>, b: Sector, base: nat, size: nat, same: bool)
    requires o + |data| <= 512
    requires if same then was == b else base >= size
    ensures |Splice(was, o, data)| == 512
    ensures forall i | 0 <= i < |data| :: Splice(was, o, data)[o + i] == data[i]
    ensures forall i | 0 <= i < 512 && !(o <= i < o + |data|) && base + i < size :: Splice(was, o, data)[i] == b[i]
  {
  }

  /** Part of a sector written through a buffer that holds the sector, or anything when the file ends before it. */
  lemma SpliceWriteFacts(p: Placement, t: FatTable, v: Volume, size: nat, sclust: nat, fptr: nat, clust: nat,
      data: seq<uint8>, was: Sector, same: bool)
    requires p.Ok(t, size, sclust) && p.On(size, fptr, clust) && |v| == p.g.nSectors
    requires 0 < |data| <= 512 - fptr % 512 && fptr + |data| < TWO32
    requires p.Sector(fptr / 512) < |v|
    requires if same then was == v[p.Sector(fptr / 512)] else fptr / 512 * 512 >= size
    ensures p.Ok(t, Max(size, fptr + |data|), sclust)
    ensures p.Cursor(Max(size, fptr + |data|), fptr + |data|, clust, p.Sector(fptr / 512))
    ensures fptr <= |p.Bytes(v, size)|
    ensures p.Bytes(v[p.Sector(fptr / 512) := Splice(was, fptr % 512, data)], Max(size, fptr + |data|))
         == Overwrite(p.Bytes(v, size), fptr, data)
  {
    hide Placement.Ok, Placement.On, Placement.Cursor, Placement.Bytes, Placement.Sector, Placement.Has, Overwrite,
      Splice, Max;
    SpliceFacts(was, fptr % 512, data, v[p.Sector(fptr / 512)], fptr / 512 * 512, size, same);
    PartWriteFacts(p, t, v, size, sclust, fptr, clust, data, Splice(was, fptr % 512, data));
  }

  /** c is the first n bytes of b. */
  predicate FirstPart(c: seq<uint8>, b: seq<uint8>, n: nat) {
    n <= |b| && c == b[..n]
  }

  /** How many of n bytes f_write accepts at position fptr: the size stays below 4 GiB. */
  function WriteLimit(fptr: nat, n: nat): nat
    requires fptr < TWO32
  {
    if fptr + n < TWO32 then n else TWO32 - 1 - fptr
  }

  lemma LimitFacts(fptr: nat, n: nat, btw: nat)
    requires fptr < TWO32 && n < TWO32
    requires btw == if (fptr + n) % TWO32 < fptr then 0xFFFF_FFFF - fptr else n
    ensures btw == WriteLimit(fptr, n) && btw <= n && fptr + btw < TWO32
  {
    if fptr + n >= TWO32 {
      assert (fptr + n) % TWO32 == fptr + n - TWO32;
    }
  }
}
