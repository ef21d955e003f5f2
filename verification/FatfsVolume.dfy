/** The mounted volume object: its one-sector write-back window over the disk, FAT entry
    access through the window, and the cluster allocator. */
module FatfsVolume {
  import opened MachineInts
  import opened FatGeometry
  import opened FatEntries
  import opened FatChains
  import opened FatAlloc

  /** Return codes of the file functions; disk errors are not part of this model. */
  datatype FResult = FrOk | FrIntErr | FrDenied

  class Fatfs {
    const geo: Geometry
    const win: array<uint8>
    var disk: Volume
    var winsect: nat
    var wflag: bool
    var lastClst: nat
    var freeClst: nat
    var fsiDirty: bool

    ghost predicate Valid()
      reads this`disk, this`wflag, this`winsect, win
      ensures Valid() ==> geo.Sound() && geo.nFatent >= 3 && winsect < geo.nSectors
    {
      && geo.Sound()
      && |disk| == geo.nSectors
      && win.Length == 512
      && winsect < geo.nSectors
      && (!wflag ==> win[..] == disk[winsect])
    }

    /** The volume as it stands with the dirty window taken into account. */
    ghost function View(): (v: Volume)
      reads this`disk, this`wflag, this`winsect, win
      requires Valid()
      ensures |v| == geo.nSectors
    {
      if wflag then Flushed(geo, disk, winsect, win[..]) else disk
    }

    /** On the disk itself both FATs agree in every sector that is not dirty in the window. */
    ghost predicate CopiesOnDisk()
      reads this`disk, this`wflag, this`winsect, win
      requires Valid()
    {
      geo.nFats == 2 ==>
        forall i | geo.fatbase <= i < geo.fatbase + geo.fsize && !(wflag && i == winsect) ::
          disk[i] == disk[i + geo.fsize]
    }

    /** As long as no sector of the second FAT is changed through the window, this is what equal copies of the
        abstract sectors mean. */
    lemma CopiesMeaning()
      requires Valid() && (wflag ==> !(geo.fatbase + geo.fsize <= winsect < geo.fatbase + 2 * geo.fsize))
      ensures CopiesAgree(geo, View()) <==> CopiesOnDisk()
    {
      InFirstFatMeaning(geo, winsect);
      if CopiesAgree(geo, View()) && geo.nFats == 2 {
        forall i | geo.fatbase <= i < geo.fatbase + geo.fsize && !(wflag && i == winsect)
          ensures disk[i] == disk[i + geo.fsize]
        {
          assert View()[i] == View()[i + geo.fsize];
        }
      }
      if CopiesOnDisk() && geo.nFats == 2 {
        forall i | geo.fatbase <= i < geo.fatbase + geo.fsize ensures View()[i] == View()[i + geo.fsize] {
          assert !(wflag && i == winsect) ==> disk[i] == disk[i + geo.fsize];
        }
      }
    }

    /** The FAT as a table of entry values. */
    ghost function Fat(): (t: seq<nat>)
      reads this`disk, this`wflag, this`winsect, win
      requires Valid()
      ensures |t| == geo.nFatent
    {
      Table(geo, View())
    }

    constructor (g: Geometry, d: Volume, sect: nat, last: nat, free: nat)
      requires g.Sound() && |d| == g.nSectors && sect < g.nSectors
      ensures Valid() && fresh(win) && geo == g && View() == d
      ensures winsect == sect && !wflag && lastClst == last && freeClst == free && disk == d
    {
      geo := g;
      disk := d;
      var w := new uint8[512];
      win := w;
      winsect, wflag := sect, false;
      lastClst, freeClst, fsiDirty := last, free, false;
      new;
      forall i | 0 <= i < 512 {
        win[i] := d[sect][i];
      }
      assert win[..] == d[sect];
    }

    /** Writes a dirty window back, into both FATs when it holds a sector of the first. */
    method SyncWindow()
      requires Valid()
      modifies this`disk, this`wflag
      ensures Valid() && !wflag
      ensures disk == old(View()) && View() == old(View())
    {
      if wflag {
        disk := disk[winsect := win[..]];
        wflag := false;
        if geo.InFirstFat(winsect) {
          InFirstFatMeaning(geo, winsect);
          if geo.nFats == 2 {
            disk := disk[winsect + geo.fsize := win[..]];
          }
        }
      }
    }

    /** Brings sector `sect` into the window; the volume does not change. */
    method MoveWindow(sect: nat)
      requires Valid() && sect < geo.nSectors
      modifies this`disk, this`wflag, this`winsect, win
      ensures Valid() && winsect == sect
      ensures View() == old(View()) && win[..] == View()[sect]
      ensures wflag ==> old(wflag) && sect == old(winsect)
    {
      if sect != winsect {
        SyncWindow();
        forall i | 0 <= i < 512 {
          win[i] := disk[sect][i];
        }
        winsect := sect;
        assert win[..] == disk[sect];
      }
    }

    /** Replaces one byte of the window and marks it dirty. */
    method StoreByte(o: nat, b: uint8)
      requires Valid() && o < 512
      modifies this`wflag, win
      ensures Valid()
      ensures View() == Flushed(geo, old(View()), winsect, old(win[..])[o := b])
    {
      ghost var was := win[..];
      FlushedTwice(geo, disk, winsect, was, was[o := b]);
      assert !wflag ==> disk == disk[winsect := was];
      win[o] := b;
      wflag := true;
      assert win[..] == was[o := b];
    }

    /** st_word into the window, marked dirty. */
    method StoreWord(o: nat, d: nat)
      requires Valid() && o + 1 < 512
      modifies this`wflag, win
      ensures Valid()
      ensures View() == Flushed(geo, old(View()), winsect, PutWord(old(win[..]), o, d))
    {
      ghost var was := win[..];
      FlushedTwice(geo, disk, winsect, was, PutWord(was, o, d));
      win[o] := d % 0x100;
      win[o + 1] := d / 0x100 % 0x100;
      wflag := true;
      assert win[..] == PutWord(was, o, d);
    }

    /** st_dword into the window, marked dirty. */
    method StoreDword(o: nat, d: nat)
      requires Valid() && o + 3 < 512
      modifies this`wflag, win
      ensures Valid()
      ensures View() == Flushed(geo, old(View()), winsect, PutDword(old(win[..]), o, d))
    {
      ghost var was := win[..];
      FlushedTwice(geo, disk, winsect, was, PutDword(was, o, d));
      var hi := d / 0x1_0000;
      win[o] := d % 0x100;
      win[o + 1] := d / 0x100 % 0x100;
      win[o + 2] := hi % 0x100;
      win[o + 3] := hi / 0x100 % 0x100;
      wflag := true;
      assert win[..] == PutDword(was, o, d);
    }

    /** The value of entry clst, or 1 when there is no such entry. */
    method GetFat(clst: nat) returns (val: nat)
      requires Valid()
      modifies this`disk, this`wflag, this`winsect, win
      ensures Valid() && View() == old(View())
      ensures val == if geo.ValidCluster(clst) then Fat()[clst] else 1
      ensures winsect == old(winsect) || geo.InFirstFat(winsect)
    {
      if clst < 2 || clst >= geo.nFatent {
        return 1;
      }
      match geo.fsType {
        case Fat12 => val := GetFat12(clst);
        case Fat16 => val := GetFat16(clst);
        case Fat32 => val := GetFat32(clst);
      }
    }

    method GetFat12(clst: nat) returns (val: nat)
      requires Valid() && geo.fsType == Fat12 && geo.ValidCluster(clst)
      modifies this`disk, this`wflag, this`winsect, win
      ensures Valid() && View() == old(View())
      ensures val == Entry(geo, View(), clst)
      ensures geo.InFirstFat(winsect)
    {
      hide View, Valid, Geometry.Sound, FatByte, Unpack12, Entry;
      Entry12(geo, View(), clst);
      var bc := clst + clst / 2;
      var lo := ReadFatByte(bc);
      bc := bc + 1;
      var hi := ReadFatByte(bc);
      val := Unpack12(clst, lo + 0x100 * hi);
    }

    /** Byte bc of the FAT, after moving the window to its sector. */
    method ReadFatByte(bc: nat) returns (b: nat)
      requires Valid() && bc < geo.fsize * 512
      modifies this`disk, this`wflag, this`winsect, win
      ensures Valid() && View() == old(View())
      ensures b == FatByte(geo, View(), bc)
      ensures geo.InFirstFat(winsect)
    {
      hide View;
      FatSector(geo, bc);
      MoveWindow(geo.fatbase + bc / 512);
      b := win[bc % 512];
    }

    method GetFat16(clst: nat) returns (val: nat)
      requires Valid() && geo.fsType == Fat16 && geo.ValidCluster(clst)
      modifies this`disk, this`wflag, this`winsect, win
      ensures Valid() && View() == old(View())
      ensures val == Entry(geo, View(), clst)
      ensures geo.InFirstFat(winsect)
    {
      hide View;
      Place16(geo, clst);
      MoveWindow(geo.fatbase + clst / 256);
      val := GetWord(win[..], clst * 2 % 512);
    }

    method GetFat32(clst: nat) returns (val: nat)
      requires Valid() && geo.fsType == Fat32 && geo.ValidCluster(clst)
      modifies this`disk, this`wflag, this`winsect, win
      ensures Valid() && View() == old(View())
      ensures val == Entry(geo, View(), clst)
      ensures geo.InFirstFat(winsect)
    {
      hide View;
      Place32(geo, clst);
      MoveWindow(geo.fatbase + clst / 128);
      val := GetDword(win[..], clst * 4 % 512) % 0x1000_0000;
    }

    /** Sets entry clst to the bits of val its packing keeps; every other entry, and every
        sector outside the FAT, stays as it was. */
    method PutFat(clst: nat, val: nat) returns (ok: bool)
      requires Valid()
      modifies this`disk, this`wflag, this`winsect, win
      ensures Valid() && ok == geo.ValidCluster(clst)
      ensures !ok ==> View() == old(View())
      ensures ok ==> Fat() == old(Fat())[clst := Mask(geo.fsType, val)]
      ensures FatOnly(geo, old(View()), View())
      ensures winsect == old(winsect) || geo.InFirstFat(winsect)
    {
      hide View, Valid, Entry, Geometry.Sound, Mask, FatOnly, Store12, Store16, Store32;
      FatOnlyRefl(geo, View());
      ok := clst >= 2 && clst < geo.nFatent;
      if ok {
        StoreTable(geo, View(), clst, val);
        StoreFrame(geo, View(), clst, val);
        match geo.fsType {
          case Fat12 => PutFat12(clst, val);
          case Fat16 => PutFat16(clst, val);
          case Fat32 => PutFat32(clst, val);
        }
      }
    }

    method PutFat12(clst: nat, val: nat)
      requires Valid() && geo.fsType == Fat12 && geo.ValidCluster(clst)
      modifies this`disk, this`wflag, this`winsect, win
      ensures Valid() && View() == Store12(geo, old(View()), clst, val)
      ensures geo.InFirstFat(winsect)
    {
      hide View, Valid, Geometry.Sound, FatByte, StoreFatByte, Store12, First12, Second12;
      Store12Def(geo, View(), clst, val);
      var bc := clst + clst / 2;
      UpdateHalf12(bc, clst, val, true);
      bc := bc + 1;
      UpdateHalf12(bc, clst, val, false);
    }

    /** Updates one of the two bytes of a 12-bit entry in the sector that holds it. */
    method UpdateHalf12(bc: nat, clst: nat, val: nat, first: bool)
      requires Valid() && bc < geo.fsize * 512
      modifies this`disk, this`wflag, this`winsect, win
      ensures Valid() && geo.InFirstFat(winsect)
      ensures
        var was := FatByte(geo, old(View()), bc);
        View()
          == StoreFatByte(geo, old(View()), bc, if first then First12(clst, val, was) else Second12(clst, val, was))
    {
      hide View, Flushed, First12, Second12;
      FatSector(geo, bc);
      MoveWindow(geo.fatbase + bc / 512);
      var p := win[bc % 512];
      StoreByte(bc % 512, if first then First12(clst, val, p) else Second12(clst, val, p));
    }

    method PutFat16(clst: nat, val: nat)
      requires Valid() && geo.fsType == Fat16 && geo.ValidCluster(clst)
      modifies this`disk, this`wflag, this`winsect, win
      ensures Valid() && View() == Store16(geo, old(View()), clst, val)
      ensures geo.InFirstFat(winsect)
    {
      hide View, Flushed;
      Place16(geo, clst);
      MoveWindow(geo.fatbase + clst / 256);
      StoreWord(clst * 2 % 512, val);
    }

    method PutFat32(clst: nat, val: nat)
      requires Valid() && geo.fsType == Fat32 && geo.ValidCluster(clst)
      modifies this`disk, this`wflag, this`winsect, win
      ensures Valid() && View() == Store32(geo, old(View()), clst, val)
      ensures geo.InFirstFat(winsect)
    {
      hide View, Flushed, Double32, PutDword, GetDword;
      Place32(geo, clst);
      MoveWindow(geo.fatbase + clst / 128);
      var o := clst * 4 % 512;
      StoreDword(o, Double32(val, GetDword(win[..], o)));
    }

    // ----- the data area, reached past the window -----

    /** First sector of a cluster, 0 for an invalid number; clst - 2 wraps below zero. */
    function Clst2Sect(clst: nat): (s: nat)
      requires geo.Sound() && clst < TWO32
      ensures s == if geo.ValidCluster(clst) then geo.ClusterBase(clst) else 0
    {
      var c := Sub32(clst, 2);
      if c >= geo.nFatent - 2 then 0
      else
        Clst2SectFormula(geo, clst);
        geo.database + geo.csize * c
    }

    /** disk_write of a run of data sectors that the window does not show. */
    method WriteSectors(s: nat, ds: seq<Sector>)
      requires Valid() && geo.database <= s && s + |ds| <= geo.nSectors
      requires !(s <= winsect < s + |ds|)
      modifies this`disk
      ensures Valid() && Fat() == old(Fat())
      ensures View() == PutSectors(old(View()), s, ds)
    {
      ghost var v := View();
      InFirstFatMeaning(geo, winsect);
      disk := disk[..s] + ds + disk[s + |ds|..];
      assert disk == PutSectors(old(disk), s, ds);
      hide Entry, Table, PutSectors;
      assert View() == PutSectors(v, s, ds);
      SameFat(geo, v, View());
    }

    /** A data sector that the window does not show is on the disk as in the volume. */
    lemma DataOnDisk(s: nat)
      requires Valid() && geo.database <= s < geo.nSectors && s != winsect
      ensures disk[s] == View()[s]
    {
      InFirstFatMeaning(geo, winsect);
    }

    // ----- cluster allocation -----

    /** A known free count is exact. */
    ghost predicate FreeKnown()
      reads this`freeClst, this`disk, this`wflag, this`winsect, win
      requires Valid()
    {
      freeClst <= geo.nFatent - 2 ==> freeClst == FreeCount(Fat())
    }

    /** The scan of create_chain: clusters after scl, then round from 2 up to scl. */
    method ScanFree(scl: nat) returns (ncl: nat)
      requires Valid() && 1 <= scl < geo.nFatent
      modifies this`disk, this`wflag, this`winsect, win
      ensures Valid() && View() == old(View())
      ensures winsect == old(winsect) || geo.InFirstFat(winsect)
      ensures ncl == 0 ==> NoneFree(Fat())
      ensures ncl == 1 ==> HasReserved(Fat())
      ensures ncl >= 2 ==> FirstFree(Fat(), scl, ncl)
    {
      hide View, Valid, Table, Entry, Geometry.Sound;
      ncl := scl;
      ghost var wrapped := false;
      while true
        invariant Valid() && View() == old(View())
        invariant winsect == old(winsect) || geo.InFirstFat(winsect)
        invariant ScanState(Fat(), scl, ncl, wrapped)
        decreases if wrapped then scl - ncl else scl + geo.nFatent - ncl
      {
        ncl := ncl + 1;
        if ncl >= geo.nFatent {
          ncl := 2;
          wrapped := true;
          if ncl > scl {
            return 0;
          }
        }
        var cs := GetFat(ncl);
        if cs == 0 {
          return ncl;
        }
        if cs == 1 {
          return 1;
        }
        if ncl == scl {
          return 0;
        }
      }
    }

    /** The free cluster create_chain takes: the one after clst if it is free, otherwise the
        first after the hint (a chain is being stretched when clst != 0). */
    method FindFree(clst: nat) returns (ncl: nat)
      requires Valid()
      requires clst == 0 || geo.ValidCluster(clst)
      modifies this`disk, this`wflag, this`winsect, win
      ensures Valid() && View() == old(View())
      ensures winsect == old(winsect) || geo.InFirstFat(winsect)
      ensures ncl == 0 ==> NoneFree(Fat())
      ensures ncl == 1 ==> HasReserved(Fat())
      ensures ncl >= 2 ==> TakenCluster(Fat(), clst, lastClst, ncl)
    {
      hide View, Valid, Table, Entry, Geometry.Sound;
      var scl := clst;
      if clst == 0 {
        scl := lastClst;
        if scl == 0 || scl >= geo.nFatent {
          scl := 1;
        }
      } else {
        ncl := scl + 1;
        if ncl >= geo.nFatent {
          ncl := 2;
        }
        var cs := GetFat(ncl);
        if cs == 1 {
          return 1;
        }
        if cs == 0 {
          return ncl;
        }
        cs := lastClst;
        if cs >= 2 && cs < geo.nFatent {
          scl := cs;
        }
      }
      ncl := ScanFree(scl);
    }

    /** Marks ncl as the end of a chain and links it behind clst. */
    method LinkCluster(clst: nat, ncl: nat)
      requires Valid() && geo.ValidCluster(ncl)
      requires clst == 0 || geo.ValidCluster(clst)
      modifies this`disk, this`wflag, this`winsect, win
      ensures Valid() && FatOnly(geo, old(View()), View())
      ensures Fat() == Linked(geo, old(Fat()), clst, ncl)
      ensures winsect == old(winsect) || geo.InFirstFat(winsect)
    {
      hide View, Valid, Table, Entry, Geometry.Sound, FatOnly, Mask;
      MaskSmall(geo, ncl);
      ghost var v0 := View();
      var ok := PutFat(ncl, 0xFFFF_FFFF);
      if clst != 0 {
        ghost var v1 := View();
        ok := PutFat(clst, ncl);
        FatOnlyTrans(geo, v0, v1, View());
      }
    }

    ghost function AsAllocator(): Allocator
      reads this`lastClst, this`freeClst, this`disk, this`wflag, this`winsect, win
      requires Valid()
    {
      Allocator(Fat(), lastClst, freeClst)
    }

    /** The state after create_chain has returned ncl: either a cluster has been linked, or
        nothing but the window has changed. A known free count stays exact. */
    twostate predicate Allotted(clst: nat, ncl: nat)
      reads this, win
    {
      && old(Valid()) && Valid()
      && FatOnly(geo, old(View()), View())
      && (old(FreeKnown()) ==> FreeKnown())
      && if NewlyLinked(old(Fat()), clst, ncl) then
           && Fat() == Linked(geo, old(Fat()), clst, ncl)
           && lastClst == ncl && fsiDirty
           && freeClst == if old(freeClst) <= geo.nFatent - 2 then old(freeClst) - 1 else old(freeClst)
         else
           View() == old(View()) && lastClst == old(lastClst) && freeClst == old(freeClst)
    }

    /** Allocates a cluster for a chain: the first of a new chain when clst is 0, otherwise
        one behind clst, unless clst already has a successor. Returns 0 when the volume is
        full, 1 when the FAT is insane. */
    method CreateChain(clst: nat) returns (ncl: nat)
      requires Valid()
      modifies this`disk, this`wflag, this`winsect, win, this`lastClst, this`freeClst, this`fsiDirty
      ensures Created(old(Fat()), old(lastClst), old(freeClst), clst, ncl)
      ensures Allotted(clst, ncl) && AfterCreate(geo, old(AsAllocator()), clst, ncl, AsAllocator())
      ensures winsect == old(winsect) || geo.InFirstFat(winsect)
    {
      hide View, Valid, Table, Entry, Geometry.Sound, NoneFree, HasReserved, TakenCluster, FatOnly, Linked, FreeCount;
      FatOnlyRefl(geo, View());
      if clst != 0 {
        var cs := GetFat(clst);
        if cs < 2 {
          return 1;
        }
        if cs < geo.nFatent {
          return cs;
        }
      }
      if freeClst == 0 {
        return 0;
      }
      ncl := Allocate(clst);
    }

    /** The allocating part of create_chain. */
    method Allocate(clst: nat) returns (ncl: nat)
      requires Valid() && freeClst != 0 && AtEnd(Fat(), clst)
      modifies this`disk, this`wflag, this`winsect, win, this`lastClst, this`freeClst, this`fsiDirty
      ensures ncl == 0 ==> NoneFree(old(Fat()))
      ensures ncl == 1 ==> HasReserved(old(Fat()))
      ensures ncl >= 2 ==> TakenCluster(old(Fat()), clst, old(lastClst), ncl)
      ensures Allotted(clst, ncl)
      ensures winsect == old(winsect) || geo.InFirstFat(winsect)
    {
      hide View, Valid, Table, Entry, Geometry.Sound, Linked, NoneFree, HasReserved, TakenCluster, FatOnly, FreeCount;
      FatOnlyRefl(geo, View());
      ncl := FindFree(clst);
      if ncl >= 2 {
        TakenIsFree(Fat(), clst, lastClst, ncl);
        FreeAfterLink(geo, Fat(), clst, ncl);
        LinkCluster(clst, ncl);
        lastClst := ncl;
        if freeClst <= geo.nFatent - 2 {
          freeClst := freeClst - 1;
        }
        fsiDirty := true;
      }
    }

    /** Frees the chain from clst on, after marking pclst (if not 0) as its end. The loop
        stops at a free cluster or an end mark, and so even on a cyclic chain. */
    method RemoveChain(clst: nat, pclst: nat) returns (res: FResult)
      requires Valid()
      modifies this, win
      ensures Valid() && lastClst == old(lastClst)
      ensures winsect == old(winsect) || geo.InFirstFat(winsect)
      ensures FatOnly(geo, old(View()), View())
      ensures RemoveAllowed(geo, clst, pclst) ==> Fat() == Removed(geo, old(Fat()), clst, pclst).1
      ensures RemoveAllowed(geo, clst, pclst) ==>
                res == if Removed(geo, old(Fat()), clst, pclst).0 then FrOk else FrIntErr
      ensures !RemoveAllowed(geo, clst, pclst) ==> res == FrIntErr && View() == old(View())
      ensures RemoveAllowed(geo, clst, pclst) ==>
                AfterRemove(geo, old(AsAllocator()), clst, pclst, res == FrOk, AsAllocator())
      ensures old(FreeKnown() && (RemoveAllowed(geo, clst, pclst) && pclst != 0 ==> Fat()[pclst] != 0)) ==> FreeKnown()
    {
      hide View, Valid, Table, Entry, Geometry.Sound, Mask, FatOnly, FreeCount;
      ghost var v0, t0 := View(), Fat();
      FatOnlyRefl(geo, v0);
      if clst < 2 || clst >= geo.nFatent {
        return FrIntErr;
      }
      MaskSmall(geo, 0);
      if pclst != 0 {
        var ok := PutFat(pclst, 0xFFFF_FFFF);
        if !ok {
          return FrIntErr;
        }
        if t0[pclst] != 0 {
          FreeCountUpdate(t0, pclst, Eoc(geo.fsType));
        }
      }
      ghost var v1 := View();
      res := FreeClusters(clst);
      FatOnlyTrans(geo, v0, v1, View());
    }

    /** The freeing loop of remove_chain. */
    method FreeClusters(clst: nat) returns (res: FResult)
      requires Valid() && geo.ValidCluster(clst)
      modifies this, win
      ensures Valid() && lastClst == old(lastClst)
      ensures winsect == old(winsect) || geo.InFirstFat(winsect)
      ensures FatOnly(geo, old(View()), View())
      ensures Fat() == FreeFrom(old(Fat()), clst).1
      ensures res == if FreeFrom(old(Fat()), clst).0 then FrOk else FrIntErr
      ensures old(FreeKnown()) ==> FreeKnown()
    {
      hide View, Valid, Table, Entry, Geometry.Sound, Mask, FatOnly, FreeCount;
      ghost var v0, t0 := View(), Fat();
      FatOnlyRefl(geo, v0);
      var c: nat := clst;
      while true
        invariant Valid() && geo.ValidCluster(c) && lastClst == old(lastClst)
        invariant winsect == old(winsect) || geo.InFirstFat(winsect)
        invariant FatOnly(geo, v0, View())
        invariant FreeFrom(Fat(), c) == FreeFrom(t0, clst)
        invariant old(FreeKnown()) ==> FreeKnown()
        decreases geo.nFatent - FreeCount(Fat())
      {
        var nxt := GetFat(c);
        if nxt == 0 {
          return FrOk;
        }
        if nxt == 1 {
          return FrIntErr;
        }
        ghost var v1 := View();
        FreeCluster(c);
        FatOnlyTrans(geo, v0, v1, View());
        c := nxt;
        if c >= geo.nFatent {
          return FrOk;
        }
      }
    }

    /** Frees one used cluster and counts it. */
    method FreeCluster(c: nat)
      requires Valid() && geo.ValidCluster(c) && Fat()[c] != 0
      modifies this, win
      ensures Valid() && lastClst == old(lastClst)
      ensures winsect == old(winsect) || geo.InFirstFat(winsect)
      ensures FatOnly(geo, old(View()), View())
      ensures Fat() == old(Fat())[c := 0]
      ensures FreeCount(old(Fat())) < FreeCount(Fat()) <= geo.nFatent
      ensures old(FreeKnown()) ==> FreeKnown()
    {
      hide View, Valid, Table, Entry, Geometry.Sound, Mask, FatOnly, FreeCount, FreeBelow;
      MaskSmall(geo, 0);
      OneFewerUsed(Fat(), c);
      var ok := PutFat(c, 0);
      CountFreed();
    }

    method CountFreed()
      modifies this`freeClst, this`fsiDirty
      ensures freeClst == if old(freeClst) < geo.nFatent - 2 then old(freeClst) + 1 else old(freeClst)
    {
      if freeClst < geo.nFatent - 2 {
        freeClst := freeClst + 1;
        fsiDirty := true;
      }
    }
  }

  lemma Clst2SectFormula(g: Geometry, clst: nat)
    requires g.Sound() && Sub32(clst, 2) < g.nFatent - 2
    requires clst < TWO32
    ensures g.ValidCluster(clst) && Sub32(clst, 2) == clst - 2
    ensures g.ClusterBase(clst) == g.database + g.csize * (clst - 2)
  {
    hide Geometry.Sound, Geometry.ClusterBase;
    TableSize(g);
    ClusterBaseFormula(g, clst);
  }
}
