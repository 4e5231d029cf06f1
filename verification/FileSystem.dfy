/** Creating, opening, removing and closing files. */
module FileSystem {
  import opened Prelude
  import opened Bitmap
  import opened Palloc
  import opened InodeTable
  import InodeIo

  /** The list holds each inode in memory once. */
  ghost predicate ListOk(inodes: Inodes, open: seq<nat>) {
    Distinct(open) && forall a :: a in open <==> a in inodes
  }

  ghost predicate Differ(inodes: Inodes, a: nat, b: nat)
    requires a in inodes && b in inodes
  {
    inodes[a].sector != inodes[b].sector
  }

  /** No two inodes in memory are for one sector. */
  ghost predicate OnePerSector(inodes: Inodes) {
    forall a, b {:trigger Differ(inodes, a, b)} :: a in inodes && b in inodes && a != b ==> Differ(inodes, a, b)
  }

  ghost predicate OnDisk(inode: Inode, disk: Disk) {
    inode.sector in disk && inode.data == disk[inode.sector]
  }

  ghost predicate Backed(inodes: Inodes, disk: Disk) {
    forall a {:trigger OnDisk(inodes[a], disk)} :: a in inodes ==> OnDisk(inodes[a], disk)
  }

  // ---------------------------------------------------------------------
  // Sectors.

  function SectorCnt(d: DiskInode): nat {
    InodeIo.BytesToSectors(d.length)
  }

  ghost function Data(d: DiskInode): set<nat> {
    PageRange(d.start, SectorCnt(d))
  }

  /** The sectors of a file: its inode's and its data's. */
  ghost function Own(s: nat, d: DiskInode): set<nat> {
    {s} + Data(d)
  }

  ghost predicate FileOk(s: nat, d: DiskInode, used: set<nat>, size: nat) {
    Own(s, d) <= used && s !in Data(d) && d.start + SectorCnt(d) <= size
  }

  ghost predicate OwnApart(s: nat, d: DiskInode, t: nat, e: DiskInode) {
    Own(s, d) !! Own(t, e)
  }

  /** Every file's sectors are in use, and no sector belongs to two files. */
  ghost predicate DiskOk(disk: Disk, used: set<nat>, size: nat) {
    && (forall s {:trigger FileOk(s, disk[s], used, size)} :: s in disk ==> FileOk(s, disk[s], used, size))
    && forall s, t {:trigger OwnApart(s, disk[s], t, disk[t])} ::
         s in disk && t in disk && s != t ==> OwnApart(s, disk[s], t, disk[t])
  }

  /** The sector is in use and belongs to no file. */
  ghost predicate Reserved(disk: Disk, used: set<nat>, s: nat) {
    s in used && s !in disk && forall t {:trigger Own(t, disk[t])} :: t in disk ==> s !in Own(t, disk[t])
  }

  lemma DiskMoreUsed(disk: Disk, used: set<nat>, size: nat, more: set<nat>)
    requires DiskOk(disk, used, size)
    ensures DiskOk(disk, used + more, size)
  {
    forall s | s in disk ensures FileOk(s, disk[s], used + more, size) {
      assert FileOk(s, disk[s], used, size);
    }
  }

  /** No cnt sectors in a row are unused. */
  ghost predicate NoRoom(used: set<nat>, size: nat, cnt: nat) {
    forall p: nat :: p + cnt <= size ==> !(PageRange(p, cnt) !! used)
  }

  /** Sectors for length bytes are in use that were not. */
  ghost predicate Leaked(before: set<nat>, after: set<nat>, length: nat) {
    exists start :: PageRange(start, InodeIo.BytesToSectors(length)) !! before &&
                    after == before + PageRange(start, InodeIo.BytesToSectors(length))
  }

  lemma FreshReserved(disk: Disk, used: set<nat>, size: nat, s: nat)
    requires DiskOk(disk, used, size) && s !in used
    ensures Reserved(disk, used + {s}, s)
  {
    forall t | t in disk ensures s !in Own(t, disk[t]) && s != t {
      assert FileOk(t, disk[t], used, size);
    }
  }

  lemma FileAdded(disk: Disk, used: set<nat>, size: nat, s: nat, d: DiskInode)
    requires DiskOk(disk, used, size) && Reserved(disk, used, s) && Data(d) !! used && d.start + SectorCnt(d) <= size
    ensures DiskOk(disk[s := d], used + Data(d), size)
  {
    var after := disk[s := d];
    forall t | t in disk
      ensures FileOk(t, disk[t], used + Data(d), size) && OwnApart(t, disk[t], s, d) && OwnApart(s, d, t, disk[t])
    {
      assert FileOk(t, disk[t], used, size);
    }
    forall t, u | t in after && u in after && t != u ensures OwnApart(t, after[t], u, after[u]) {
      assert t in disk && u in disk ==> OwnApart(t, disk[t], u, disk[u]);
    }
  }

  lemma FileGone(disk: Disk, used: set<nat>, size: nat, s: nat)
    requires DiskOk(disk, used, size) && s in disk
    ensures DiskOk(disk - {s}, used - Own(s, disk[s]), size)
  {
    var after := disk - {s};
    forall t | t in after ensures FileOk(t, after[t], used - Own(s, disk[s]), size) {
      assert FileOk(t, disk[t], used, size) && OwnApart(s, disk[s], t, disk[t]);
    }
    forall t, u | t in after && u in after && t != u ensures OwnApart(t, after[t], u, after[u]) {
      assert OwnApart(t, disk[t], u, disk[u]);
    }
  }

  /** There is no free sector, or none that leaves a run of cnt more. */
  ghost predicate NoRoomFor(used: set<nat>, size: nat, cnt: nat) {
    NoRoom(used, size, 1) || exists s: nat :: s !in used && s < size && NoRoom(used + {s}, size, cnt)
  }

  // ---------------------------------------------------------------------
  // The system.

  class FileTable {
    const freeMap: Bitmap
    var inodes: Inodes
    var openInodes: seq<nat>
    var files: Files
    var disk: Disk
    ghost var refs: multiset<nat>

    ghost predicate Valid()
      reads this, freeMap.bits
    {
      freeMap.Valid() && TableOk() && DiskOk(disk, Used(), freeMap.bitCnt)
    }

    ghost predicate TableOk()
      reads this
    {
      CountsOk(inodes, files, refs) && ListOk(inodes, openInodes) && OnePerSector(inodes) && Backed(inodes, disk)
    }

    ghost function Used(): set<nat>
      requires freeMap.Valid()
      reads freeMap.bits
    {
      Marked(freeMap.Bools(), 0)
    }

    constructor (size: nat)
      ensures Valid() && fresh(freeMap.bits) && Used() == {} && freeMap.bitCnt == size
      ensures inodes == map[] && files == map[] && disk == map[] && refs == multiset{}
    {
      freeMap := new Bitmap(size);
      inodes, openInodes, files, disk, refs := map[], [], map[], map[], multiset{};
      new;
      MarkedNone(size, 0);
    }

    /** free_map_allocate; written tells whether the map could be written back. */
    method FreeMapAllocate(cnt: nat, written: bool) returns (r: Option<nat>)
      requires freeMap.Valid()
      modifies freeMap.bits
      ensures freeMap.Valid()
      ensures r.Some? ==> r.value + cnt <= freeMap.bitCnt && PageRange(r.value, cnt) !! old(Used()) &&
                          Used() == old(Used()) + PageRange(r.value, cnt)
      ensures r.None? ==> Used() == old(Used()) && (written ==> NoRoom(Used(), freeMap.bitCnt, cnt))
    {
      ghost var before := freeMap.Bools();
      r := freeMap.ScanAndFlip(0, cnt, false);
      if r.None? {
        forall p: nat | p + cnt <= freeMap.bitCnt ensures !(PageRange(p, cnt) !! Used()) {
          ClearRun(before, 0, p, cnt);
        }
      } else {
        ClearRun(before, 0, r.value, cnt);
        MarkedFilled(before, 0, r.value, cnt, true);
        if !written {
          MarkedFilled(freeMap.Bools(), 0, r.value, cnt, false);
          freeMap.SetMultiple(r.value, cnt, false);
          r := None;
        }
      }
    }

    /** free_map_release. */
    method FreeMapRelease(sector: nat, cnt: nat)
      requires freeMap.Valid() && sector + cnt <= freeMap.bitCnt && PageRange(sector, cnt) <= Used()
      modifies freeMap.bits
      ensures freeMap.Valid() && Used() == old(Used()) - PageRange(sector, cnt)
    {
      MarkedFilled(freeMap.Bools(), 0, sector, cnt, false);
      freeMap.SetMultiple(sector, cnt, false);
    }

    /** inode_create, in a sector the caller has allocated. */
    method InodeCreate(sector: nat, length: nat, memory: bool, written: bool) returns (ok: bool)
      requires Valid() && Reserved(disk, Used(), sector)
      modifies this`disk, freeMap.bits
      ensures Valid()
      ensures ok ==> memory && sector in disk && disk[sector].length == length && Data(disk[sector]) !! old(Used()) &&
                     disk == old(disk)[sector := disk[sector]] && Used() == old(Used()) + Data(disk[sector])
      ensures !ok ==> disk == old(disk) && Used() == old(Used())
      ensures !ok && memory && written ==> NoRoom(Used(), freeMap.bitCnt, InodeIo.BytesToSectors(length))
    {
      if !memory {
        return false;
      }
      var start := FreeMapAllocate(InodeIo.BytesToSectors(length), written);
      if start.None? {
        return false;
      }
      var d := DiskInode(start.value, length);
      FileAdded(disk, old(Used()), freeMap.bitCnt, sector, d);
      BackedMore(inodes, disk, sector, d);
      disk := disk[sector := d];
      return true;
    }

    /** The allocations of filesys_create, with the outcomes of what it depends on: opening the
        root directory, memory for the inode, the two writes of the free map and the directory
        entry. On failure the inode's sector comes free again; the data's sectors stay in use,
        belonging to no file, exactly where only the directory entry failed. */
    method Create(length: nat, root: bool, memory: bool, written: (bool, bool), added: bool) returns (r: Option<nat>)
      requires Valid() && 0 in Used()
      modifies this`disk, freeMap.bits
      ensures Valid()
      ensures r.Some? ==> r.value !in old(Used()) && r.value in disk && disk[r.value].length == length && root && added
      ensures r.Some? ==> disk == old(disk)[r.value := disk[r.value]] && Used() == old(Used()) + Own(r.value, disk[r.value])
      ensures r.None? ==> disk == old(disk) && old(Used()) <= Used()
      ensures r.None? && Used() != old(Used()) ==> root && !added && memory && Leaked(old(Used()), Used(), length)
      ensures r.None? && root && memory && written == (true, true) && added ==>
                NoRoomFor(old(Used()), freeMap.bitCnt, InodeIo.BytesToSectors(length))
    {
      if !root {
        return None;
      }
      var sector := FreeMapAllocate(1, written.0);
      if sector.None? {
        return None;
      }
      ghost var used := Used();
      var s := sector.value;
      assert PageRange(s, 1) == {s};
      DiskMoreUsed(disk, old(Used()), freeMap.bitCnt, {s});
      FreshReserved(disk, old(Used()), freeMap.bitCnt, s);
      var created := InodeCreate(s, length, memory, written.1);
      if created && added {
        return sector;
      }
      if created {
        ghost var d := disk[s];
        Uncreate(s, used, old(disk));
        assert Data(d) == PageRange(d.start, InodeIo.BytesToSectors(length)) && Used() == old(Used()) + Data(d);
      } else {
        FreeMapRelease(s, 1);
        assert Used() == old(Used());
      }
      return None;
    }

    /** A created inode without a directory entry: only its own sector comes free. */
    method Uncreate(s: nat, ghost used: set<nat>, ghost before: Disk)
      requires Valid() && s in disk && s in used && s !in before && disk == before[s := disk[s]]
      requires Data(disk[s]) !! used && Used() == used + Data(disk[s]) && DiskOk(before, used - {s}, freeMap.bitCnt)
      requires Backed(inodes, before)
      modifies this`disk, freeMap.bits
      ensures Valid() && disk == before && Used() == used - {s} + Data(old(disk)[s])
    {
      assert FileOk(s, disk[s], Used(), freeMap.bitCnt);
      assert PageRange(s, 1) == {s};
      DiskMoreUsed(before, used - {s}, freeMap.bitCnt, Data(disk[s]));
      FreeMapRelease(s, 1);
      disk := disk - {s};
      assert disk == before;
      assert Used() == used - {s} + Data(old(disk)[s]);
    }

    /** inode_open: the inode already in memory for the sector, or a new one at the address
        given, if any. */
    method InodeOpen(sector: nat, memory: Option<nat>) returns (r: Option<nat>)
      requires Valid() && sector in disk && (memory.Some? ==> memory.value !in inodes)
      modifies this`inodes, this`openInodes, this`refs
      ensures Valid()
      ensures r.Some? ==> r.value in inodes && inodes[r.value].sector == sector && refs == old(refs) + multiset{r.value}
      ensures r.Some? && r.value in old(inodes) ==> OnlyReopened(old(inodes), inodes, r.value)
      ensures r.Some? && r.value !in old(inodes) ==>
                r == memory && inodes == old(inodes)[r.value := Inode(sector, 1, false, 0, disk[sector])]
      ensures (exists a :: a in old(inodes) && old(inodes)[a].sector == sector) ==> r.Some? && r.value in old(inodes)
      ensures r.None? ==> memory.None? && inodes == old(inodes) && refs == old(refs)
    {
      for i := 0 to |openInodes|
        invariant forall j :: 0 <= j < i ==> openInodes[j] in inodes && inodes[openInodes[j]].sector != sector
      {
        var a := openInodes[i];
        if inodes[a].sector == sector {
          InodeReopen(a);
          return Some(a);
        }
      }
      assert forall a :: a in inodes ==> a in openInodes && inodes[a].sector != sector;
      if memory.None? {
        return None;
      }
      var a := memory.value;
      OpenFacts(inodes, openInodes, files, refs, disk, a, sector);
      openInodes := [a] + openInodes;
      inodes := inodes[a := Inode(sector, 1, false, 0, disk[sector])];
      refs := refs + multiset{a};
      r := Some(a);
    }

    /** inode_reopen. */
    method InodeReopen(a: nat)
      requires Valid() && a in inodes
      modifies this`inodes, this`refs
      ensures Valid() && refs == old(refs) + multiset{a}
      ensures inodes == Counted(old(inodes), a, old(inodes)[a].openCnt + 1, old(inodes)[a].denyWriteCnt)
    {
      RefAdded(inodes, files, refs, a);
      CountedSame(inodes, openInodes, disk, a, inodes[a].openCnt + 1, inodes[a].denyWriteCnt);
      inodes := inodes[a := inodes[a].(openCnt := inodes[a].openCnt + 1)];
      refs := refs + multiset{a};
    }

    /** inode_remove. */
    method InodeRemove(a: nat)
      requires Valid() && a in inodes
      modifies this`inodes
      ensures Valid() && inodes == old(inodes)[a := old(inodes)[a].(removed := true)]
    {
      RemovedSame(inodes, openInodes, files, refs, disk, a);
      inodes := inodes[a := inodes[a].(removed := true)];
    }

    /** inode_close: the sectors of a removed file come free with its last opener, and not
        before; the memory of an inode goes with its last opener. A null pointer is ignored. */
    method InodeClose(inode: Option<nat>)
      requires Valid() && (inode.Some? ==> refs[inode.value] > 0)
      modifies this`inodes, this`openInodes, this`refs, this`disk, freeMap.bits
      ensures Valid() && Closed(inode, old(inodes), old(refs), inodes, refs)
      ensures Freed(inode, old(inodes), old(disk), old(Used()), disk, Used())
    {
      if inode.None? {
        return;
      }
      var a := inode.value;
      var gone := DropRef(a);
      if gone.Some? && gone.value.removed {
        ReleaseFile(gone.value);
      }
    }

    /** An opener leaves; the inode too, if that was the last. */
    method DropRef(a: nat) returns (gone: Option<Inode>)
      requires TableOk() && refs[a] > 0
      modifies this`inodes, this`openInodes, this`refs
      ensures TableOk() && Closed(Some(a), old(inodes), old(refs), inodes, refs)
      ensures gone == if Last(old(inodes), a) then Some(old(inodes)[a]) else None
      ensures gone.Some? ==> OnDisk(gone.value, disk) && forall b :: b in inodes ==> inodes[b].sector != gone.value.sector
    {
      RefDropped(inodes, files, refs, a);
      if inodes[a].openCnt > 1 {
        CountedSame(inodes, openInodes, disk, a, inodes[a].openCnt - 1, inodes[a].denyWriteCnt);
        inodes := inodes[a := inodes[a].(openCnt := inodes[a].openCnt - 1)];
        gone := None;
      } else {
        CloseFacts(inodes, openInodes, disk, a);
        gone := Some(inodes[a]);
        openInodes := Without(openInodes, a);
        inodes := inodes - {a};
      }
      refs := refs - multiset{a};
    }

    /** The sectors of a file nobody has open come free. */
    method ReleaseFile(gone: Inode)
      requires Valid() && OnDisk(gone, disk) && forall b :: b in inodes ==> inodes[b].sector != gone.sector
      modifies this`disk, freeMap.bits
      ensures Valid() && disk == old(disk) - {gone.sector} && Used() == old(Used()) - Own(gone.sector, gone.data)
    {
      ghost var used, s, d := Used(), gone.sector, gone.data;
      assert FileOk(s, disk[s], used, freeMap.bitCnt);
      FileGone(disk, used, freeMap.bitCnt, s);
      BackedLess(inodes, disk, s);
      assert PageRange(s, 1) == {s};
      FreeMapRelease(gone.sector, 1);
      FreeMapRelease(gone.data.start, InodeIo.BytesToSectors(gone.data.length));
      assert Used() == used - Own(s, d);
      disk := disk - {gone.sector};
    }

    /** file_open: the new file takes over the reference; on failure the reference is closed. */
    method FileOpen(inode: Option<nat>, memory: Option<nat>) returns (r: Option<nat>)
      requires Valid() && (inode.Some? ==> refs[inode.value] > 0) && (memory.Some? ==> memory.value !in files)
      modifies this`inodes, this`openInodes, this`refs, this`disk, this`files, freeMap.bits
      ensures Valid()
      ensures r.Some? ==> inode.Some? && r == memory && files == old(files)[r.value := File(inode.value, false)]
      ensures r.Some? ==> refs == old(refs) - multiset{inode.value} && inodes == old(inodes)
      ensures r.Some? ==> disk == old(disk) && Used() == old(Used())
      ensures r.None? ==> (inode.None? || memory.None?) && files == old(files)
      ensures r.None? ==> Closed(inode, old(inodes), old(refs), inodes, refs)
      ensures r.None? ==> Freed(inode, old(inodes), old(disk), old(Used()), disk, Used())
    {
      if inode.Some? && memory.Some? {
        RefToFile(inodes, files, refs, inode.value, memory.value);
        files := files[memory.value := File(inode.value, false)];
        refs := refs - multiset{inode.value};
        return memory;
      }
      InodeClose(inode);
      return None;
    }

    /** file_deny_write. */
    method FileDenyWrite(f: nat)
      requires Valid() && f in files
      modifies this`inodes, this`files
      ensures Valid() && files == old(files)[f := File(old(files)[f].inode, true)]
      ensures Flagged(old(inodes), inodes, old(files)[f].inode, if old(files)[f].denyWrite then 0 else 1)
    {
      FlagFacts(inodes, files, refs, f);
      if !files[f].denyWrite {
        MoveFlag(f, inodes[files[f].inode].denyWriteCnt + 1);
      }
    }

    /** file_allow_write. */
    method FileAllowWrite(f: nat)
      requires Valid() && f in files
      modifies this`inodes, this`files
      ensures Valid() && files == old(files)[f := File(old(files)[f].inode, false)]
      ensures Flagged(old(inodes), inodes, old(files)[f].inode, Hold(old(files)[f]))
    {
      FlagFacts(inodes, files, refs, f);
      if files[f].denyWrite {
        MoveFlag(f, inodes[files[f].inode].denyWriteCnt - 1);
      }
    }

    /** The file's flag turns, and its inode's count follows. */
    method MoveFlag(f: nat, cnt: nat)
      requires TableOk() && f in files && files[f].inode in inodes
      requires cnt == inodes[files[f].inode].denyWriteCnt + if files[f].denyWrite then -1 else 1
      modifies this`inodes, this`files
      ensures TableOk() && files == old(files)[f := Turned(old(files)[f])]
      ensures inodes == Counted(old(inodes), old(files)[f].inode, old(inodes)[old(files)[f].inode].openCnt, cnt)
    {
      var a := files[f].inode;
      FlagMoved(inodes, files, refs, f);
      CountedSame(inodes, openInodes, disk, a, inodes[a].openCnt, cnt);
      files := files[f := Turned(files[f])];
      inodes := inodes[a := inodes[a].(denyWriteCnt := cnt)];
    }

    /** file_reopen. */
    method FileReopen(f: nat, memory: Option<nat>) returns (r: Option<nat>)
      requires Valid() && f in files && (memory.Some? ==> memory.value !in files)
      modifies this`inodes, this`openInodes, this`refs, this`disk, this`files, freeMap.bits
      ensures Valid() && refs == old(refs) && r == memory && disk == old(disk) && Used() == old(Used())
      ensures r.None? ==> inodes == old(inodes) && files == old(files)
      ensures r.Some? ==> files == old(files)[r.value := File(old(files)[f].inode, false)]
      ensures r.Some? ==> old(files)[f].inode in old(inodes) && OnlyReopened(old(inodes), inodes, old(files)[f].inode)
    {
      var a := files[f].inode;
      assert InodeOk(a, inodes[a], files, refs);
      InodeReopen(a);
      ghost var mid := inodes;
      r := FileOpen(Some(a), memory);
      if r.None? {
        UndoneReopen(old(inodes), a, mid, old(refs), inodes, refs);
      }
      assert refs == old(refs);
    }

    /** file_close: the file's hold on writes ends, its reference is closed, and it is gone. */
    method FileClose(file: Option<nat>)
      requires Valid() && (file.Some? ==> file.value in files)
      modifies this`inodes, this`openInodes, this`refs, this`disk, this`files, freeMap.bits
      ensures Valid() && refs == old(refs)
      ensures file.None? ==> files == old(files) && inodes == old(inodes) && disk == old(disk) && Used() == old(Used())
      ensures file.Some? ==> files == old(files) - {file.value} && Released(old(inodes), old(files)[file.value], inodes)
      ensures file.Some? ==> Freed(Some(old(files)[file.value].inode), old(inodes), old(disk), old(Used()), disk, Used())
    {
      if file.Some? {
        CloseOpen(file.value);
      }
    }

    method CloseOpen(f: nat)
      requires Valid() && f in files
      modifies this`inodes, this`openInodes, this`refs, this`disk, this`files, freeMap.bits
      ensures Valid() && refs == old(refs)
      ensures files == old(files) - {f} && Released(old(inodes), old(files)[f], inodes)
      ensures Freed(Some(old(files)[f].inode), old(inodes), old(disk), old(Used()), disk, Used())
    {
      var a := files[f].inode;
      LetGo(f);
      ghost var mid := inodes;
      InodeClose(Some(a));
      ClosedFile(old(inodes), old(files)[f], mid, old(refs), inodes, refs);
      FreedLater(old(inodes), old(files)[f], mid, old(disk), old(Used()), disk, Used());
    }

    /** The file's hold on writes has ended, and only its reference is left. */
    method LetGo(f: nat)
      requires Valid() && f in files
      modifies this`inodes, this`files, this`refs
      ensures Valid() && files == old(files) - {f} && refs == old(refs) + multiset{old(files)[f].inode}
      ensures Flagged(old(inodes), inodes, old(files)[f].inode, Hold(old(files)[f]))
    {
      FileAllowWrite(f);
      ChangedThenGone(old(files), f, files[f]);
      DetachFile(f);
    }

    /** The file is gone, and its reference is left. */
    method DetachFile(f: nat)
      requires TableOk() && f in files && !files[f].denyWrite
      modifies this`files, this`refs
      ensures TableOk() && files == old(files) - {f} && refs == old(refs) + multiset{old(files)[f].inode}
    {
      FileToRef(inodes, files, refs, f);
      refs := refs + multiset{files[f].inode};
      files := files - {f};
    }
  }

  /** The inode of a closed file: gone with its last opener, or with one opener less and
      without the file's hold on writes. */
  ghost predicate Released(before: Inodes, file: File, after: Inodes) {
    && file.inode in before
    && var inode := before[file.inode];
       after == if inode.openCnt <= 1 then before - {file.inode}
                else before[file.inode := inode.(openCnt := inode.openCnt - 1,
                                                 denyWriteCnt := if file.denyWrite && inode.denyWriteCnt > 0 then inode.denyWriteCnt - 1
                                                                 else inode.denyWriteCnt)]
  }

  function Turned(file: File): File {
    File(file.inode, !file.denyWrite)
  }

  /** A file's inode is in memory and counts it, and its flag if it is set. */
  lemma FlagFacts(inodes: Inodes, files: Files, refs: multiset<nat>, f: nat)
    requires CountsOk(inodes, files, refs) && f in files
    ensures var a := files[f].inode;
            && a in inodes && inodes[a].denyWriteCnt <= inodes[a].openCnt
            && (if files[f].denyWrite then 0 < inodes[a].denyWriteCnt else inodes[a].denyWriteCnt < inodes[a].openCnt)
            && Counted(inodes, a, inodes[a].openCnt, inodes[a].denyWriteCnt) == inodes
            && files[f := File(a, files[f].denyWrite)] == files
  {
    DeniersFew(files[f].inode, inodes[files[f].inode], files, refs);
    FlagMoved(inodes, files, refs, f);
  }

  lemma ChangedThenGone(files: Files, f: nat, file: File)
    requires f in files
    ensures files[f := file] - {f} == files - {f}
  {
  }

  function Hold(file: File): int {
    if file.denyWrite then -1 else 0
  }

  lemma UndoneReopen(before: Inodes, a: nat, mid: Inodes, refs: multiset<nat>, after: Inodes, rest: multiset<nat>)
    requires a in before && OnlyReopened(before, mid, a) && Closed(Some(a), mid, refs + multiset{a}, after, rest)
    requires before[a].openCnt > 0
    ensures after == before && rest == refs && !Last(mid, a)
  {
  }

  lemma ClosedFile(before: Inodes, file: File, mid: Inodes, refs: multiset<nat>, after: Inodes, rest: multiset<nat>)
    requires Flagged(before, mid, file.inode, Hold(file))
    requires Closed(Some(file.inode), mid, refs + multiset{file.inode}, after, rest)
    ensures Released(before, file, after) && rest == refs
  {
    assert mid - {file.inode} == before - {file.inode};
  }

  lemma FreedLater(before: Inodes, file: File, mid: Inodes, disk: Disk, used: set<nat>, disk': Disk, used': set<nat>)
    requires Flagged(before, mid, file.inode, Hold(file)) && Freed(Some(file.inode), mid, disk, used, disk', used')
    ensures Freed(Some(file.inode), before, disk, used, disk', used')
  {
  }

  // ---------------------------------------------------------------------
  // What the invariant means.

  /** Two different inodes in memory, removed or not, own no sector in common. */
  lemma NoSharedSector(inodes: Inodes, disk: Disk, used: set<nat>, size: nat, a: nat, b: nat)
    requires OnePerSector(inodes) && Backed(inodes, disk) && DiskOk(disk, used, size)
    requires a in inodes && b in inodes && a != b
    ensures Own(inodes[a].sector, inodes[a].data) !! Own(inodes[b].sector, inodes[b].data)
  {
    var s, t := inodes[a].sector, inodes[b].sector;
    assert OnDisk(inodes[a], disk) && OnDisk(inodes[b], disk) && Differ(inodes, a, b);
    assert OwnApart(s, disk[s], t, disk[t]);
  }

  function Io(i: Inode): InodeIo.Inode {
    InodeIo.Inode(i.data.start, i.data.length, i.denyWriteCnt)
  }

  lemma OpenOnDevice(inodes: Inodes, disk: Disk, used: set<nat>, size: nat, a: nat)
    requires Backed(inodes, disk) && DiskOk(disk, used, size) && a in inodes
    ensures InodeIo.OnDevice(Io(inodes[a]), size)
  {
    assert OnDisk(inodes[a], disk);
    assert FileOk(inodes[a].sector, disk[inodes[a].sector], used, size);
  }

  lemma RangesApart(p: nat, m: nat, q: nat, n: nat)
    requires PageRange(p, m) !! PageRange(q, n) && m > 0 && n > 0
    ensures p + m <= q || q + n <= p
  {
    assert p in PageRange(p, m) && q in PageRange(q, n);
    assert p !in PageRange(q, n) && q !in PageRange(p, m);
  }

  /** What inode_write_at does through one inode changes the contents of no file that another
      inode in memory stands for. */
  lemma WriteStaysInFile(inodes: Inodes, disk: Disk, used: set<nat>, size: nat, a: nat, b: nat,
                         before: seq<Byte>, offset: nat, d: seq<Byte>, after: seq<Byte>)
    requires OnePerSector(inodes) && Backed(inodes, disk) && DiskOk(disk, used, size)
    requires a in inodes && b in inodes && a != b
    requires |before| == InodeIo.SectorSize * size && offset + |d| <= inodes[a].data.length
    requires InodeIo.Placed(before, InodeIo.SectorSize * inodes[a].data.start + offset, d, after)
    ensures InodeIo.SectorSize * inodes[b].data.start + inodes[b].data.length <= |before| == |after|
    ensures InodeIo.Contents(Io(inodes[b]), after) == InodeIo.Contents(Io(inodes[b]), before)
  {
    var f, g := Io(inodes[a]), Io(inodes[b]);
    OpenOnDevice(inodes, disk, used, size, a);
    OpenOnDevice(inodes, disk, used, size, b);
    InodeIo.FileOnDevice(f, size);
    InodeIo.FileOnDevice(g, size);
    if f.length > 0 && g.length > 0 {
      NoSharedSector(inodes, disk, used, size, a, b);
      RangesApart(f.start, InodeIo.BytesToSectors(f.length), g.start, InodeIo.BytesToSectors(g.length));
      InodeIo.OtherFilesKept(f, g, before, offset, d, after);
    }
  }

  /** An inode in memory keeps its file's sectors in use, removed or not. */
  lemma OpenKeepsSectors(inodes: Inodes, disk: Disk, used: set<nat>, size: nat, a: nat)
    requires Backed(inodes, disk) && DiskOk(disk, used, size) && a in inodes
    ensures Own(inodes[a].sector, inodes[a].data) <= used
  {
    assert OnDisk(inodes[a], disk);
    assert FileOk(inodes[a].sector, disk[inodes[a].sector], used, size);
  }

  /** Writes to an inode are denied exactly while some file that has it open denies them. */
  lemma DeniedExactlyWhen(inodes: Inodes, files: Files, refs: multiset<nat>, a: nat)
    requires CountsOk(inodes, files, refs) && a in inodes
    ensures inodes[a].denyWriteCnt > 0 <==> exists f :: f in files && files[f].inode == a && files[f].denyWrite
  {
    assert InodeOk(a, inodes[a], files, refs);
    if f :| f in files && files[f].inode == a && files[f].denyWrite {
      assert f in Deniers(files, a);
    }
    if inodes[a].denyWriteCnt > 0 {
      var f :| f in Deniers(files, a);
    }
  }

  /** Every inode in memory has an opener: with all closed, none is left. */
  lemma EveryInodeHasOpener(inodes: Inodes, files: Files, refs: multiset<nat>, a: nat)
    requires CountsOk(inodes, files, refs) && a in inodes
    ensures a in refs || exists f :: f in files && files[f].inode == a
  {
    assert InodeOk(a, inodes[a], files, refs);
    if a !in refs {
      var f :| f in Holders(files, a);
    }
  }

  ghost predicate Last(inodes: Inodes, a: nat) {
    a in inodes && inodes[a].openCnt == 1
  }

  /** The sectors of a removed file come free with its last opener; otherwise none do. */
  ghost predicate Freed(inode: Option<nat>, inodes: Inodes, disk: Disk, used: set<nat>, disk': Disk, used': set<nat>) {
    if inode.Some? && Last(inodes, inode.value) && inodes[inode.value].removed
    then var s := inodes[inode.value].sector;
         s in disk && disk' == disk - {s} && used' == used - Own(s, disk[s])
    else disk' == disk && used' == used
  }

  /** What closing a reference does to the inodes in memory. */
  ghost predicate Closed(inode: Option<nat>, before: Inodes, refs: multiset<nat>, after: Inodes, rest: multiset<nat>) {
    match inode
    case None => after == before && rest == refs
    case Some(a) => && rest == refs - multiset{a} && a in before && before[a].openCnt > 0
                    && after == if before[a].openCnt == 1 then before - {a}
                                else Counted(before, a, before[a].openCnt - 1, before[a].denyWriteCnt)
  }

  /** Only the inode's count of files that deny writes has moved. */
  ghost predicate Flagged(before: Inodes, after: Inodes, a: nat, delta: int) {
    && a in before && 0 <= before[a].denyWriteCnt + delta <= before[a].openCnt
    && after == Counted(before, a, before[a].openCnt, before[a].denyWriteCnt + delta)
  }

  lemma CloseFacts(inodes: Inodes, open: seq<nat>, disk: Disk, a: nat)
    requires ListOk(inodes, open) && OnePerSector(inodes) && Backed(inodes, disk) && a in inodes
    ensures var after := inodes - {a};
            && ListOk(after, Without(open, a)) && OnePerSector(after) && Backed(after, disk)
            && OnDisk(inodes[a], disk) && forall b :: b in after ==> after[b].sector != inodes[a].sector
  {
    var after := inodes - {a};
    WithoutDistinct(open, a);
    assert OnDisk(inodes[a], disk);
    forall b | b in after ensures OnDisk(after[b], disk) && after[b].sector != inodes[a].sector {
      assert OnDisk(inodes[b], disk) && Differ(inodes, a, b);
    }
    forall b, c | b in after && c in after && b != c ensures Differ(after, b, c) {
      assert Differ(inodes, b, c);
    }
  }

  lemma BackedLess(inodes: Inodes, disk: Disk, s: nat)
    requires Backed(inodes, disk) && forall b :: b in inodes ==> inodes[b].sector != s
    ensures Backed(inodes, disk - {s})
  {
    forall a | a in inodes ensures OnDisk(inodes[a], disk - {s}) {
      assert OnDisk(inodes[a], disk);
    }
  }

  /** Only the inode at a has changed, and only in how often it is open. */
  ghost predicate OnlyReopened(before: Inodes, after: Inodes, a: nat)
    requires a in before
  {
    after == Counted(before, a, before[a].openCnt + 1, before[a].denyWriteCnt)
  }

  lemma OpenFacts(inodes: Inodes, open: seq<nat>, files: Files, refs: multiset<nat>, disk: Disk, a: nat, sector: nat)
    requires CountsOk(inodes, files, refs) && ListOk(inodes, open) && OnePerSector(inodes) && Backed(inodes, disk)
    requires a !in inodes && sector in disk && forall b :: b in inodes ==> inodes[b].sector != sector
    ensures var after := inodes[a := Inode(sector, 1, false, 0, disk[sector])];
            && CountsOk(after, files, refs + multiset{a}) && ListOk(after, [a] + open)
            && OnePerSector(after) && Backed(after, disk)
  {
    var after := inodes[a := Inode(sector, 1, false, 0, disk[sector])];
    InodeAdded(inodes, files, refs, a, sector, disk[sector]);
    forall b | b in after ensures OnDisk(after[b], disk) {
      assert b in inodes ==> OnDisk(inodes[b], disk);
    }
    forall b, c | b in after && c in after && b != c ensures Differ(after, b, c) {
      assert b in inodes && c in inodes ==> Differ(inodes, b, c);
    }
  }

  /** Counts do not matter to the list, the sectors and the disk. */
  lemma CountedSame(inodes: Inodes, open: seq<nat>, disk: Disk, a: nat, openCnt: nat, denyWriteCnt: nat)
    requires ListOk(inodes, open) && OnePerSector(inodes) && Backed(inodes, disk) && a in inodes
    ensures var after := Counted(inodes, a, openCnt, denyWriteCnt);
            ListOk(after, open) && OnePerSector(after) && Backed(after, disk)
  {
    SectorsSame(inodes, Counted(inodes, a, openCnt, denyWriteCnt), open, disk);
  }

  lemma SectorsSame(inodes: Inodes, after: Inodes, open: seq<nat>, disk: Disk)
    requires ListOk(inodes, open) && OnePerSector(inodes) && Backed(inodes, disk)
    requires inodes.Keys == after.Keys
    requires forall b :: b in inodes ==> after[b].sector == inodes[b].sector && after[b].data == inodes[b].data
    ensures ListOk(after, open) && OnePerSector(after) && Backed(after, disk)
  {
    forall b | b in after ensures OnDisk(after[b], disk) {
      assert OnDisk(inodes[b], disk);
    }
    forall b, c | b in after && c in after && b != c ensures Differ(after, b, c) {
      assert Differ(inodes, b, c);
    }
  }

  lemma RemovedSame(inodes: Inodes, open: seq<nat>, files: Files, refs: multiset<nat>, disk: Disk, a: nat)
    requires CountsOk(inodes, files, refs) && ListOk(inodes, open) && OnePerSector(inodes) && Backed(inodes, disk) && a in inodes
    ensures var after := inodes[a := inodes[a].(removed := true)];
            CountsOk(after, files, refs) && ListOk(after, open) && OnePerSector(after) && Backed(after, disk)
  {
    var after := inodes[a := inodes[a].(removed := true)];
    forall b | b in after ensures InodeOk(b, after[b], files, refs) {
      assert InodeOk(b, inodes[b], files, refs);
    }
    SectorsSame(inodes, after, open, disk);
  }

  lemma BackedMore(inodes: Inodes, disk: Disk, s: nat, d: DiskInode)
    requires Backed(inodes, disk) && s !in disk
    ensures Backed(inodes, disk[s := d])
  {
    forall a | a in inodes ensures OnDisk(inodes[a], disk[s := d]) {
      assert OnDisk(inodes[a], disk);
    }
  }
}
