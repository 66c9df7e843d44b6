/** The file system's operations, updating the device and the kernel's tables in place. */
module FsClass {
  import opened Machine
  import opened FsLayout
  import opened FsDevice
  import opened FsInvariant
  import opened FsLemmas
  import opened Bitmaps
  import opened FsTables
  import opened FsEffects
  import opened FsModel
  import opened FsFormat
  import opened FsMount

  class FileSystem {
    const device: Device
    var freeMap: seq<bool>
    var inodes: map<nat, Inode>
    var openList: seq<nat>
    var files: map<nat, File>

    /** Whether the last write of the free map to its file was complete. */
    ghost var saved: bool

    /** filesys_init without formatting: the tables are empty and the free map is the initial
        one. */
    constructor (d: Device)
      requires DeviceOk(d.sectors)
      ensures device == d && freeMap == InitialMap(|d.sectors|) && inodes == map[] && openList == [] && files == map[]
    {
      device := d;
      freeMap, inodes, openList, files, saved := InitialMap(|d.sectors|), map[], [], map[], false;
    }

    ghost function View(): Fs
      reads this, device
    {
      Fs(device.sectors, freeMap, inodes, openList, files, saved)
    }

    /** The invariant while the code in progress holds the inode references p. */
    ghost predicate Valid(p: multiset<nat>)
      reads this, device
    {
      Ok(View(), p)
    }

    // ----- the free map -----

    /** bitmap_write to the free-map file. */
    method WriteFreeMap(bounceOk: bool, ghost before: Fs, ghost p: multiset<nat>) returns (ok: bool)
      requires Ok(before, p) && View() == before.(freeMap := freeMap) && |freeMap| == |before.freeMap|
      modifies this`saved, device
      ensures View() == WithMap(before, freeMap, MapPart(freeMap, bounceOk), ok) && ok == SavesMap(|freeMap|, bounceOk)
    {
      hide StorageOk, TablesOk;
      FreeMapFile(before, p);
      InodeFits(before.disk, FREE_MAP_SECTOR);
      var b := EncodeMap(freeMap);
      var node := inodes[files[0].inode];
      var n := device.InodeWriteAt(node.data.start, node.data.length, node.denyCnt != 0, b, |b|, 0, bounceOk);
      AllSaved(|freeMap|, bounceOk);
      ok := n == |b|;
      saved := ok;
    }

    /** free_map_allocate: first fit, and the copy on disk is brought up to date. When that
        fails, the sectors are free again. */
    method FreeMapAllocate(cnt: nat, mapOk: bool, ghost p: multiset<nat>) returns (r: Option<nat>)
      requires Valid(p)
      modifies this`freeMap, this`saved, device
      ensures Valid(p) && Undisturbed(old(View()), View())
      ensures r.None? <==> !SavesMap(|old(freeMap)|, mapOk) || forall x: nat :: !AllFree(old(freeMap), x, cnt)
      ensures r.None? ==> freeMap == old(freeMap) && (saved ==> old(saved)) && (SavesMap(|freeMap|, mapOk) ==> View() == old(View()))
      ensures r.Some? ==>
                && FirstFree(old(freeMap), r.value, cnt)
                && freeMap == SetRange(old(freeMap), r.value, cnt, true) && saved
                && Unowned(View(), r.value, cnt)
    {
      hide StorageOk, TablesOk, SavesMap, MapPart;
      r := ScanFree(freeMap, cnt);
      if r.None? { SelfUndisturbed(View()); return; }
      ghost var s := View();
      MarkKeeps(s, r.value, cnt, mapOk);
      freeMap := SetRange(freeMap, r.value, cnt, true);
      var ok := WriteFreeMap(mapOk, s, p);
      if !ok {
        MarkTakenBack(s.freeMap, r.value, cnt);
        freeMap := SetRange(freeMap, r.value, cnt, false);
        r := None;
      }
      UndisturbedTables(s, View(), p);
    }

    /** free_map_release of marked sectors that no live file owns. It does not care whether the
        map could be saved. */
    method FreeMapRelease(x: nat, cnt: nat, mapOk: bool, ghost p: multiset<nat>)
      requires Valid(p) && Unowned(View(), x, cnt)
      modifies this`freeMap, this`saved, device
      ensures Valid(p) && Undisturbed(old(View()), View())
      ensures freeMap == SetRange(old(freeMap), x, cnt, false) && saved == SavesMap(|freeMap|, mapOk)
    {
      hide StorageOk, TablesOk, SavesMap, MapPart;
      ghost var s := View();
      ClearKeeps(s, x, cnt, mapOk);
      freeMap := SetRange(freeMap, x, cnt, false);
      var ok := WriteFreeMap(mapOk, s, p);
      UndisturbedTables(s, View(), p);
    }

    // ----- inodes -----

    /** inode_create: a new inode in an allocated sector, with a zeroed extent of its own. A
        failure (of memory or of the free map) changes no file and not the free map. */
    method InodeCreate(sec: nat, length: nat, memoryOk: bool, mapOk: bool, ghost p: multiset<nat>) returns (ok: bool)
      requires Valid(p) && length < B31 && Unowned(View(), sec, 1)
      modifies this`freeMap, this`saved, device
      ensures Valid(p) && Undisturbed(old(View()), View())
      ensures ok <==> HasExtent(old(freeMap), length, memoryOk, mapOk)
      ensures !ok ==> freeMap == old(freeMap) && Unowned(View(), sec, 1) && (saved ==> old(saved)) && (SavesMap(|freeMap|, mapOk) ==> View() == old(View()))
      ensures ok ==> IsNewFile(View(), sec, length) && TookExtent(old(View()), View(), sec) && saved
    {
      hide StorageOk, TablesOk, Undisturbed, Unowned, IsNewFile, Loose, WithMap, SavesMap, AllFree, SectorsFor;
      ghost var s := View();
      SelfIsUndisturbed(s, sec);
      if !memoryOk { return false; }
      var sectors := SectorsFor(length);
      var r := FreeMapAllocate(sectors, mapOk, p);
      if r.None? { StillUnowned(s, View(), sec, 1); return false; }
      ghost var s1 := View();
      AllocatedElsewhere(s, s1, sec, r.value, sectors);
      var node := InodeDisk(r.value, length);
      NewFile(s1, sec, node);
      WriteInode(sec, node);
      NewFileAfter(s, s1, View(), sec, node, p);
      ok := true;
    }

    /** The device writes of inode_create. */
    method WriteInode(sec: nat, node: InodeDisk)
      requires DiskOk(device.sectors) && sec < |device.sectors| && node.length >= 0
      requires node.start + SectorsFor(node.length) <= |device.sectors|
      requires !(node.start <= sec < node.start + SectorsFor(node.length))
      modifies device
      ensures device.sectors == NewInode(old(device.sectors), sec, node)
    {
      var sectors := SectorsFor(node.length);
      device.BlockWrite(sec, EncodeInode(node));
      for i := 0 to sectors
        invariant DiskOk(device.sectors) && |device.sectors| == |old(device.sectors)|
        invariant forall x: nat | x < |device.sectors| ::
                    device.sectors[x] == if x == sec then EncodeInode(node)
                                         else if node.start <= x < node.start + i then Zeros(512)
                                         else old(device.sectors)[x]
      {
        device.BlockWrite(node.start + i, Zeros(512));
      }
    }

    /** inode_open: the in-memory inode of a sector, shared if it is open already. */
    method InodeOpen(sec: nat, addr: Option<nat>, ghost p: multiset<nat>) returns (id: Option<nat>)
      requires Valid(p) && LiveIn(View(), sec) && (addr.Some? ==> addr.value !in inodes)
      modifies this`inodes, this`openList
      ensures id.None? ==> addr.None? && View() == old(View())
      ensures id.Some? ==> Valid(p + multiset{id.value}) && TablesOnly(old(View()), View())
      ensures id.Some? ==> id.value in inodes && inodes[id.value].sector == sec && inodes[id.value].openCnt >= 1
      ensures id.Some? ==> inodes == old(inodes)[id.value := inodes[id.value]] && (id.value in old(inodes) || id == addr)
      ensures id.Some? ==> Grows(old(inodes), inodes)
      ensures id.Some? ==> (inodes[id.value].openCnt == 1 <==> sec !in OpenSectors(old(inodes)))
    {
      hide StorageOk, TablesOk;
      var found := FindOpen(sec, p);
      if found.Some? {
        var i := found.value;
        ReopenKeeps(View(), i, p);
        inodes := inodes[i := inodes[i].(openCnt := inodes[i].openCnt + 1)];
        CountsAre(old(View()), i, p);
        return Some(i);
      }
      if addr.None? { return None; }
      LiveIsOnDisk(View(), sec);
      OpenNewKeeps(View(), addr.value, sec, p);
      inodes := inodes[addr.value := Inode(sec, 1, false, 0, DecodeInode(device.sectors[sec]))];
      openList := [addr.value] + openList;
      return addr;
    }

    /** The search of inode_open among the open inodes. */
    method FindOpen(sec: nat, ghost p: multiset<nat>) returns (r: Option<nat>)
      requires Valid(p)
      ensures r.Some? ==> r.value in inodes && inodes[r.value].sector == sec && sec in OpenSectors(inodes)
      ensures r.None? ==> sec !in OpenSectors(inodes)
    {
      hide StorageOk, TablesOk;
      ListFacts(View(), p);
      var k := 0;
      while k < |openList|
        invariant k <= |openList|
        invariant forall j | 0 <= j < k :: openList[j] in inodes && inodes[openList[j]].sector != sec
      {
        if inodes[openList[k]].sector == sec { return Some(openList[k]); }
        k := k + 1;
      }
      NotInList(inodes, openList, sec);
      return None;
    }

    /** The part of inode_close that gives up the reference. */
    method DropReference(id: nat, ghost p: multiset<nat>)
      requires TablesOk(View(), p) && id in p && id in inodes
      modifies this`inodes, this`openList
      ensures View() == LetGo(old(View()), id) && TablesOk(View(), p - multiset{id})
      ensures (id in inodes <==> old(inodes)[id].openCnt > 1) && Grows(inodes, old(inodes))
    {
      hide TablesOk;
      LetGoTables(View(), id, p);
      var node := inodes[id];
      if node.openCnt - 1 != 0 {
        inodes := inodes[id := node.(openCnt := node.openCnt - 1)];
      } else {
        inodes, openList := inodes - {id}, Without(openList, id);
      }
    }

    /** inode_close: the last close of a removed inode frees its sectors. */
    method InodeClose(id: nat, mapOk: nat -> bool, ghost p: multiset<nat>)
      requires Valid(p) && id in p && id in inodes
      modifies this`freeMap, this`inodes, this`openList, this`saved, device
      ensures Valid(p - multiset{id}) && files == old(files)
      ensures ClosedInode(old(View()), View(), old(inodes)[id])
      ensures forall i | i in old(inodes) && i != id :: i in inodes && inodes[i] == old(inodes)[i]
      ensures Grows(inodes, old(inodes))
      ensures saved == if old(inodes)[id].openCnt == 1 && old(inodes)[id].removed then SavesMap(|freeMap|, mapOk(1)) else old(saved)
    {
      hide StorageOk, TablesOk, ClosedInode, Unowned, Undisturbed, SavesMap;
      ghost var s := View();
      CountsAre(s, id, p);
      var node := inodes[id];
      DropReference(id, p);
      ghost var s1 := View();
      if id in inodes {
        CloseOneKeeps(s, id, p);
        ClosedKeeping(s, s1, node);
        return;
      }
      CloseLastKeeps(s, id, p);
      if node.removed {
        FreedIsUnowned(s, s1, id);
        FreeMapRelease(node.sector, 1, mapOk(0), p - multiset{id});
        ghost var s2 := View();
        StillFreed(s1, s2, node);
        FreeMapRelease(node.data.start, SectorsFor(node.data.length), mapOk(1), p - multiset{id});
        ClosedFreeing(s, s1, s2, View(), id);
      } else {
        ClosedKeeping(s, s1, node);
      }
    }

    // ----- the directory -----

    /** Reads directory slot j; None is the end of the directory or a lack of memory. */
    method ReadEntry(root: nat, j: nat, bounceOk: bool, ghost p: multiset<nat>) returns (r: Option<Entry>)
      requires Valid(p) && root in inodes && inodes[root].sector == ROOT_DIR_SECTOR
      ensures j < DIR_ENTRIES && bounceOk ==> r == Some(Entries(View())[j])
      ensures j >= DIR_ENTRIES || !bounceOk ==> r == None
      ensures r.Some? ==> EntryOk(r.value)
    {
      hide StorageOk, TablesOk, SystemFilesOk, DirOk, InodeOk, DirEntries, Content, FileBytes, Desc;
      RootFile(View(), root, p);
      var node := inodes[root];
      InodeFits(device.sectors, ROOT_DIR_SECTOR);
      var b := device.InodeReadAt(node.data.start, node.data.length, 20, 20 * j, bounceOk);
      if |b| != 20 { return None; }
      EntryIsSlice(View(), j, b);
      r := Some(DecodeEntry(b));
    }

    /** lookup: the slot in use under this name and what it holds, if there is one in front of any
        slot that cannot be read. */
    method Lookup(root: nat, name: Name, look: nat -> bool, ghost p: multiset<nat>) returns (r: Option<nat>, e: Entry)
      requires Valid(p) && root in inodes && inodes[root].sector == ROOT_DIR_SECTOR
      ensures r.Some? <==> Visible(Entries(View()), name, look)
      ensures r.Some? ==> Finds(Entries(View()), name, look, r.value) && e == Entries(View())[r.value] && EntryOk(e)
    {
      hide Ok, NamesOf, Visible, Finds, NotFoundBefore, Entries, SystemFilesOk, DirOk, Desc, InodeOk;
      RootFile(View(), root, p);
      ghost var es := Entries(View());
      var j := 0;
      e := Entry(0, [], 0);
      NoneBefore(es, name, look);
      while true
        invariant j <= DIR_ENTRIES
        invariant NotFoundBefore(es, name, look, j)
        decreases DIR_ENTRIES - j
      {
        var slot := ReadEntry(root, j, look(j), p);
        if slot.None? {
          NotVisible(es, name, look, j);
          return None, e;
        }
        FoundAt(es, name, look, j);
        e := slot.value;
        if e.inUse != 0 && CString(e.name) == name { return Some(j), e; }
        j := j + 1;
      }
    }

    method WriteEntry(root: nat, j: nat, e: Entry, bounceOk: bool, ghost p: multiset<nat>) returns (ok: bool)
      requires Valid(p) && root in inodes && inodes[root].sector == ROOT_DIR_SECTOR && EntryOk(e) && j <= 16
      modifies device
      ensures ok <==> j < DIR_ENTRIES && bounceOk
      ensures EntryWritten(old(View()), View(), j, e, ok)
    {
      hide StorageOk, TablesOk, SystemFilesOk, DirOk, InodeOk, Entries, FileBytes, Overwrite, EncodeEntry;
      RootFile(View(), root, p);
      var node := inodes[root];
      InodeFits(device.sectors, ROOT_DIR_SECTOR);
      var b := EncodeEntry(e);
      var n := device.InodeWriteAt(node.data.start, node.data.length, node.denyCnt != 0, b, 20, 20 * j, bounceOk);
      ok := n == 20;
      if ok { assert b[..n] == b; }
      else { OverwriteNothing(old(device.sectors), 512 * node.data.start + 20 * j); assert b[..n] == []; }
    }

    /** dir_add of a new inode. Lack of memory can hide a name in use from it, or make it take a
        slot in use for a free one; in all other cases an entry that it writes adds one name and
        changes no other. */
    method DirAdd(root: nat, name: Name, sec: nat, b: Bounce, garbage: Bytes, ghost length: nat, ghost p: multiset<nat>) returns (ok: bool)
      requires Valid(p) && root in inodes && inodes[root].sector == ROOT_DIR_SECTOR && 0 !in name && |garbage| == NAME_MAX + 1
      requires IsNewFile(View(), sec, length) && sec != FREE_MAP_SECTOR && sec != ROOT_DIR_SECTOR
      modifies device
      ensures ok <==> DirAccepts(old(View()), name, b)
      ensures !ok ==> View() == old(View())
      ensures ok && !DirHarms(old(View()), name, b) ==> Valid(p) && NameAdded(old(View()), View(), name, sec, length)
      ensures ok && DirHarms(old(View()), name, b) ==> Harmed(old(View()), View(), name, b)
    {
      hide StorageOk, TablesOk, SystemFilesOk, IsNewFile, NameAdded, NamesOf, EntryWritten, CString, InodeOk, DirEntries, DirOk, Visible, NameTaken, Harmed;
      NewFileSector(View(), sec, length);
      RootFile(View(), root, p);
      if name == [] || |name| > NAME_MAX { return false; }
      var found, _ := Lookup(root, name, b.look, p);
      if found.Some? { return false; }
      var j, name0 := FreeSlot(root, b.slot, garbage, p);
      var e := Entry(sec, CopyString(name0, name), 1);
      CopyStringRoundTrip(name0, name);
      ghost var s := View();
      ok := WriteEntry(root, j, e, b.write, p);
      if !ok {
        NotWritten(s, View(), j, e);
      } else if DirHarms(s, name, b) {
        HarmIs(s, View(), b, j, e, name, sec, length);
      } else {
        NotHarmed(s, name, b);
        Named1(s, View(), j, e, name, sec, length, p);
      }
    }

    /** The search of dir_add for a slot. The bytes of the last name read stay in the entry. */
    method FreeSlot(root: nat, slot: nat -> bool, garbage: Bytes, ghost p: multiset<nat>) returns (j: nat, name: Bytes)
      requires Valid(p) && root in inodes && inodes[root].sector == ROOT_DIR_SECTOR && |garbage| == NAME_MAX + 1
      ensures j == StopsAt(Entries(View()), slot, 0) <= DIR_ENTRIES && |name| == NAME_MAX + 1
    {
      hide StorageOk, TablesOk, SystemFilesOk, InodeOk, DirEntries, DirOk;
      RootFile(View(), root, p);
      j := 0;
      name := garbage;
      while true
        invariant j <= DIR_ENTRIES && |name| == NAME_MAX + 1 && StopsAt(Entries(View()), slot, j) == StopsAt(Entries(View()), slot, 0)
        decreases DIR_ENTRIES - j
      {
        var r := ReadEntry(root, j, slot(j), p);
        if r.None? { return; }
        name := r.value.name;
        if r.value.inUse == 0 { return; }
        j := j + 1;
      }
    }

    /** The two writes of dir_remove: the entry is erased and the inode is marked removed. If the
        entry cannot be written, nothing changes. */
    method Unbind(root: nat, j: nat, e: Entry, id: nat, bounceOk: bool, ghost s: Fs, ghost name: Name, ghost p: multiset<nat>)
      returns (ok: bool)
      requires Valid(p) && root in inodes && inodes[root].sector == ROOT_DIR_SECTOR
      requires TablesOnly(s, View()) && InSlot(s, j, e, name) && id in inodes && inodes[id].sector == e.sector
      modifies this`inodes, device
      ensures ok == bounceOk && Valid(p) && (!ok ==> View() == old(View()))
      ensures ok ==> NameUnbound(s, View(), name) && NamesOf(Entries(s))[name] == inodes[id].sector
      ensures ok ==> inodes == old(inodes)[id := old(inodes)[id].(removed := true)]
    {
      hide StorageOk, TablesOk, EntryWritten, TablesOnly, Erased, NameUnbound, InUse, DirEntries, Content, NamesOf, Live, CString, InodeOk;
      ghost var s1 := View();
      OpenedSame(s, s1);
      SlotFacts(s, j, e, name);
      InodesAreUnique(s1, p);
      ok := WriteEntry(root, j, e.(inUse := 0), bounceOk, p);
      if !ok { NotWritten(s1, View(), j, e.(inUse := 0)); return; }
      inodes := inodes[id := inodes[id].(removed := true)];
      EraseKeeps(s1, View(), j, id, p);
      ErasedUnbinds(s, s1, View(), name, j, id);
    }

    /** dir_remove: the name is unbound, and the inode is freed by its last close. */
    method DirRemove(root: nat, name: Name, addr: Option<nat>, look: nat -> bool, eraseOk: bool, mapOk: nat -> bool, ghost p: multiset<nat>)
      returns (ok: bool)
      requires Valid(p) && root in inodes && inodes[root].sector == ROOT_DIR_SECTOR && root in p
      requires addr.Some? ==> addr.value !in inodes
      modifies this`freeMap, this`inodes, this`openList, this`saved, device
      ensures Valid(p) && root in inodes && inodes[root].sector == ROOT_DIR_SECTOR && Keeps(old(inodes), inodes)
      ensures ok ==> Visible(Entries(old(View())), name, look) && eraseOk && NameRemoved(old(View()), View(), name)
      ensures !ok ==> Quiet(old(View()), View()) && freeMap == old(freeMap) && saved == old(saved)
      ensures addr.Some? ==> (ok <==> Visible(Entries(old(View())), name, look) && eraseOk)
      ensures old(saved) && SavesMap(|freeMap|, mapOk(1)) ==> saved
    {
      hide StorageOk, TablesOk, SystemFilesOk, NamesOf, CString, InodeOk, DirEntries, DirOk, Quiet, NameRemoved, ClosedInode,
           TablesOnly, NameTaken, LiveIn, NameUnbound, Content, OpenSectors, Live, Visible, SavesMap;
      ghost var s := View();
      RootFile(s, root, p);
      SelfQuiet(s);
      var found, e := Lookup(root, name, look, p);
      if found.None? { return false; }
      var j := found.value;
      EntryIsLive(s, j);
      var id := InodeOpen(e.sector, addr, p);
      if id.None? { return false; }
      ghost var q := p + multiset{id.value};
      ghost var s1 := View();
      ok := Unbind(root, j, e, id.value, eraseOk, s, name, q);
      ghost var s2 := View();
      if !ok {
        NamedIsKept(s, s1, j, id.value);
        InodeClose(id.value, mapOk, q);
        KeptQuiet(s1, View(), s1.inodes[id.value]);
        OpenedSame(s, s1);
        QuietTrans(s, s1, View());
      } else {
        InodeClose(id.value, mapOk, q);
        RemovalDone(s, s2, View(), name, s2.inodes[id.value]);
      }
      assert q - multiset{id.value} == p;
    }

    // ----- the root directory -----

    /** dir_open_root; it fails only for lack of memory. */
    method DirOpenRoot(addr: Option<nat>, dirOk: bool, ghost p: multiset<nat>) returns (root: Option<nat>)
      requires Valid(p) && (addr.Some? ==> addr.value !in inodes)
      modifies this`inodes, this`openList
      ensures root.None? ==> Valid(p) && Quiet(old(View()), View()) && Keeps(old(inodes), inodes) && (addr.None? || !dirOk)
      ensures root.Some? ==> Valid(p + multiset{root.value}) && TablesOnly(old(View()), View()) && Grows(old(inodes), inodes)
      ensures root.Some? ==> root.value in inodes && inodes[root.value].sector == ROOT_DIR_SECTOR
      ensures root.Some? ==> forall i | i in inodes :: i in old(inodes) || Some(i) == addr
      ensures p == multiset{} ==> (root.Some? <==> addr.Some? && dirOk)
    {
      hide StorageOk, TablesOk, Quiet, TablesOnly, LiveIn;
      ghost var s := View();
      RootIsLive(s);
      if p == multiset{} { RootIsClosed(s); OpenSectorsAre(inodes); }
      root := InodeOpen(ROOT_DIR_SECTOR, addr, p);
      if root.None? { SelfQuiet(s); return; }
      if !dirOk {
        ghost var s1 := View();
        OpenedSame(s, s1);
        RootFile(s1, root.value, p + multiset{root.value});
        RootIsKept(s1, root.value);
        DirClose(root.value, p + multiset{root.value});
        assert p + multiset{root.value} - multiset{root.value} == p;
        QuietTrans(s, s1, View());
        return None;
      }
    }

    /** dir_close of the root directory, whatever its entries say. */
    method DirClose(root: nat, ghost p: multiset<nat>)
      requires TablesOk(View(), p) && root in p && root in inodes && !inodes[root].removed
      modifies this`inodes, this`openList
      ensures TablesOk(View(), p - multiset{root}) && Grows(inodes, old(inodes))
      ensures old(Valid(p)) ==> Valid(p - multiset{root}) && Quiet(old(View()), View())
    {
      hide StorageOk, TablesOk, Quiet;
      ghost var s := View();
      DropReference(root, p);
      if Ok(s, p) { LetGoKeeps(s, root, p); }
    }

    // ----- filesys.c -----

    /** The steps of filesys_create after the inode sector has been allocated. */
    method CreateAt(root: nat, name: Name, sec: nat, size: nat, memoryOk: bool, mapOk: bool, b: Bounce, garbage: Bytes, ghost p: multiset<nat>)
      returns (ok: bool)
      requires Valid(p) && root in inodes && inodes[root].sector == ROOT_DIR_SECTOR && 0 !in name && |garbage| == NAME_MAX + 1
      requires Unowned(View(), sec, 1) && size < B31
      modifies this`freeMap, this`saved, device
      ensures ok <==> HasExtent(old(freeMap), size, memoryOk, mapOk) && DirAccepts(old(View()), name, b)
      ensures ok && !DirHarms(old(View()), name, b) ==> Valid(p) && AddedAt(old(View()), View(), name, sec, size)
      ensures ok && DirHarms(old(View()), name, b) ==> Harmed(old(View()), View(), name, b)
      ensures !ok ==> Valid(p) && Undisturbed(old(View()), View()) && Unowned(View(), sec, 1)
      ensures !ok ==> if HasExtent(old(freeMap), size, memoryOk, mapOk) then Leaked(old(freeMap), freeMap, SectorsFor(size)) else freeMap == old(freeMap)
      ensures old(saved) && SavesMap(|freeMap|, mapOk) ==> saved
    {
      hide StorageOk, TablesOk, Undisturbed, Unowned, IsNewFile, NameAdded, TookExtent, AddedAt, AllFree, DirAccepts, DirHarms, Harmed, SavesMap, HasExtent, Leaked, SectorsFor;
      ghost var s := View();
      UnownedIsNew(s, sec);
      ok := InodeCreate(sec, size, memoryOk, mapOk, p);
      if !ok { return; }
      ghost var s1 := View();
      TookFacts(s, s1, sec, size);
      UndisturbedEntries(s, s1);
      SameAcceptance(s, s1, name, b);
      ok := DirAdd(root, name, sec, b, garbage, size, p);
      if !ok {
        NewIsUnowned(s1, sec, size);
      } else if DirHarms(s, name, b) {
        SameHarm(s, s1, View(), name, b);
      } else {
        AddedFrom(s, s1, View(), name, sec, size);
      }
    }

    /** filesys_create in the open root directory. */
    method CreateIn(root: nat, name: Name, size: nat, memoryOk: bool, mapOk: nat -> bool, b: Bounce, garbage: Bytes, ghost p: multiset<nat>)
      returns (ok: bool, ghost file: nat)
      requires Valid(p) && root in inodes && inodes[root].sector == ROOT_DIR_SECTOR && 0 !in name && |garbage| == NAME_MAX + 1 && size < B31
      modifies this`freeMap, this`saved, device
      ensures ok <==> Reaches(old(freeMap), size, memoryOk, mapOk) && DirAccepts(old(View()), name, b)
      ensures ok && !DirHarms(old(View()), name, b) ==> Valid(p) && Added(old(View()), View(), name, file, size)
      ensures ok && DirHarms(old(View()), name, b) ==> Harmed(old(View()), View(), name, b)
      ensures !ok ==> Valid(p) && Undisturbed(old(View()), View())
      ensures !ok ==> if Reaches(old(freeMap), size, memoryOk, mapOk) then Leaked(old(freeMap), freeMap, SectorsFor(size)) else freeMap == old(freeMap)
      ensures old(saved) && (forall k | 0 <= k < 3 :: SavesMap(|freeMap|, mapOk(k))) ==> saved
    {
      hide StorageOk, TablesOk, Undisturbed, Unowned, AddedAt, Added, AllFree, Leaked, NoSpace, DirAccepts, DirHarms, Harmed, SavesMap;
      ghost var s := View();
      var inodeSector := FreeMapAllocate(1, mapOk(0), p);
      file := 0;
      if inodeSector.None? {
        NoSectorReaches(s.freeMap, size, memoryOk, mapOk);
        return false, 0;
      }
      file := inodeSector.value;
      ghost var s1 := View();
      UndisturbedEntries(s, s1);
      SameAcceptance(s, s1, name, b);
      ReachesIs(s.freeMap, file, size, memoryOk, mapOk);
      ok := CreateAt(root, name, inodeSector.value, size, memoryOk, mapOk(1), b, garbage, p);
      if !ok {
        ghost var s2 := View();
        UndisturbedTrans(s, s1, s2);
        ReleaseUndoes(s.freeMap, file, s2.freeMap, SectorsFor(size));
        FreeMapRelease(inodeSector.value, 1, mapOk(2), p);
        UndisturbedTrans(s, s2, View());
      } else if DirHarms(s, name, b) {
        SameHarm(s, s1, View(), name, b);
      } else {
        AddedIs(s, s1, View(), name, file, size);
      }
    }

    /** filesys_create. It succeeds exactly when it gets as far as dir_add and that takes the name,
        and a success keeps all other names exactly unless dir_add does harm. A failure changes
        no name and no contents, and the free map exactly when dir_add turned down a file that
        is not empty. */
    method FilesysCreate(name: Name, size: nat, addr: Option<nat>, dirOk: bool, memoryOk: bool, mapOk: nat -> bool, b: Bounce, garbage: Bytes)
      returns (ok: bool, ghost file: nat)
      requires Valid(multiset{}) && 0 !in name && |garbage| == NAME_MAX + 1 && size < B31 && (addr.Some? ==> addr.value !in inodes)
      modifies this`freeMap, this`inodes, this`openList, this`saved, device
      ensures ok <==> addr.Some? && dirOk && Reaches(old(freeMap), size, memoryOk, mapOk) && DirAccepts(old(View()), name, b)
      ensures ok && !DirHarms(old(View()), name, b) ==> Valid(multiset{}) && Created(old(View()), View(), name, file, size)
      ensures ok && DirHarms(old(View()), name, b) ==> Harmed(old(View()), View(), name, b)
      ensures !ok ==> Valid(multiset{}) && SameModel(old(View()), View())
      ensures !ok ==> (freeMap != old(freeMap) <==> addr.Some? && dirOk && Reaches(old(freeMap), size, memoryOk, mapOk) && size > 0)
      ensures !ok && freeMap != old(freeMap) ==> Leaked(old(freeMap), freeMap, SectorsFor(size))
      ensures old(saved) && (forall k | 0 <= k < 3 :: SavesMap(|freeMap|, mapOk(k))) ==> saved
    {
      hide StorageOk, TablesOk, Undisturbed, Added, Leaked, NoSpace, Created, SameModel, Quiet, TablesOnly, DirAccepts, DirHarms, Harmed, Reaches, SavesMap;
      ghost var s := View();
      file := 0;
      var root := DirOpenRoot(addr, dirOk, multiset{});
      if root.None? {
        QuietSame(s, View(), multiset{}, multiset{});
        return false, 0;
      }
      ghost var q := multiset{} + multiset{root.value};
      ghost var s1 := View();
      OpenedModel(s, s1, multiset{}, q);
      SameAcceptance(s, s1, name, b);
      RootIsKept(s1, root.value);
      ok, file := CreateIn(root.value, name, size, memoryOk, mapOk, b, garbage, q);
      ghost var s2 := View();
      SameTables(s1, s2, q);
      DirClose(root.value, q);
      assert q - multiset{root.value} == multiset{};
      if ok && DirHarms(s, name, b) {
        SameHarm(s, s1, s2, name, b);
        HarmStays(s, s2, View(), name, b);
      } else if ok {
        QuietSame(s2, View(), q, multiset{});
        CreatedIs(s, s1, s2, View(), name, file, size);
      } else {
        QuietSame(s2, View(), q, multiset{});
        if Reaches(s.freeMap, size, memoryOk, mapOk) { LeakShows(s.freeMap, s2.freeMap, size); }
        UndisturbedSame(s1, s2, q);
        SameModelTrans(s, s1, s2, View());
      }
    }

    /** file_open of an inode that somebody else keeps: the file takes over the reference. */
    method FileOpen(id: nat, f: nat, fileOk: bool, ghost p: multiset<nat>) returns (h: Option<nat>)
      requires Valid(p) && id in p && id in inodes && inodes[id].sector !in {FREE_MAP_SECTOR, ROOT_DIR_SECTOR}
      requires f !in files && f != 0 && (!inodes[id].removed || inodes[id].openCnt > 1)
      modifies this`inodes, this`openList, this`files
      ensures Valid(p - multiset{id})
      ensures h.None? ==> !fileOk && Quiet(old(View()), View()) && Grows(inodes, old(inodes))
      ensures h.Some? ==> fileOk && h.value == f && View() == Attach(old(View()), f, id)
    {
      hide StorageOk, TablesOk, Quiet;
      ghost var s := View();
      if !fileOk {
        LetGoKeeps(s, id, p);
        DropReference(id, p);
        return None;
      }
      AttachKeeps(s, f, id, p);
      files := files[f := File(id, 0, false)];
      return Some(f);
    }

    /** dir_lookup: opens the inode a name stands for. */
    method DirLookup(root: nat, name: Name, addr: Option<nat>, look: nat -> bool, ghost p: multiset<nat>) returns (id: Option<nat>)
      requires Valid(p) && root in inodes && inodes[root].sector == ROOT_DIR_SECTOR && (addr.Some? ==> addr.value !in inodes)
      modifies this`inodes, this`openList
      ensures Valid(p + PendingOne(id)) && TablesOnly(old(View()), View()) && Grows(old(inodes), inodes)
      ensures id.None? ==> (Visible(Entries(old(View())), name, look) ==> addr.None?)
      ensures id.Some? ==> id.value in inodes && NameIs(View(), name, inodes[id.value].sector) && Visible(Entries(old(View())), name, look)
    {
      hide StorageOk, TablesOk, SystemFilesOk, NamesOf, CString, InodeOk, DirEntries, DirOk, TablesOnly, NameTaken, LiveIn, Content, NameIs, Live, Visible;
      ghost var s := View();
      RootFile(s, root, p);
      SelfTables(s);
      assert p + multiset{} == p;
      var j, e := Lookup(root, name, look, p);
      if j.None? { return None; }
      EntryIsLive(s, j.value);
      id := InodeOpen(e.sector, addr, p);
      if id.Some? {
        OpenedSame(s, View());
        NameIsFrom(s, View(), name, inodes[id.value].sector);
      }
    }

    /** The part of filesys_open before file_open: dir_open_root, dir_lookup, dir_close. */
    method FindInode(name: Name, addr: Option<nat>, dirOk: bool, addr2: Option<nat>, look: nat -> bool) returns (id: Option<nat>)
      requires Valid(multiset{})
      requires (addr.Some? ==> addr.value !in inodes) && (addr2.Some? ==> addr2.value !in inodes && addr2 != addr)
      modifies this`inodes, this`openList
      ensures Valid(PendingOne(id)) && SameModel(old(View()), View())
      ensures id.None? && addr.Some? && dirOk && addr2.Some? ==> !Visible(Entries(old(View())), name, look)
      ensures id.Some? ==> id.value in inodes && NameIs(View(), name, inodes[id.value].sector) && Visible(Entries(old(View())), name, look)
    {
      hide StorageOk, TablesOk, SameModel, Quiet, TablesOnly, NameTaken, NameIs, Visible;
      ghost var s := View();
      var root := DirOpenRoot(addr, dirOk, multiset{});
      if root.None? {
        QuietSame(s, View(), multiset{}, multiset{});
        return None;
      }
      ghost var q := multiset{root.value};
      assert multiset{} + multiset{root.value} == q;
      ghost var s1 := View();
      OpenedModel(s, s1, multiset{}, q);
      id := DirLookup(root.value, name, addr2, look, q);
      ghost var s2 := View();
      ghost var q2 := q + PendingOne(id);
      OpenedModel(s1, s2, q, q2);
      hide PendingOne;
      RootIsKept(s2, root.value);
      DirClose(root.value, q2);
      assert q2 - multiset{root.value} == PendingOne(id);
      QuietSame(s2, View(), q2, PendingOne(id));
      SameModelTrans(s, s1, s2, View());
      if id.Some? { StillNamed(s2, View(), name, id.value, PendingOne(id)); }
    }

    /** filesys_open. Apart from running out of memory it fails exactly for an unknown name. */
    method FilesysOpen(name: Name, addr: Option<nat>, dirOk: bool, addr2: Option<nat>, look: nat -> bool, f: nat, fileOk: bool)
      returns (h: Option<nat>)
      requires Valid(multiset{}) && f !in files && f != 0
      requires (addr.Some? ==> addr.value !in inodes) && (addr2.Some? ==> addr2.value !in inodes && addr2 != addr)
      modifies this`inodes, this`openList, this`files
      ensures Valid(multiset{})
      ensures h.None? ==> SameModel(old(View()), View())
      ensures h.Some? ==> h.value == f && Visible(Entries(old(View())), name, look) && Opened(old(View()), View(), name, f)
      ensures addr.Some? && dirOk && addr2.Some? && fileOk ==> (h.Some? <==> Visible(Entries(old(View())), name, look))
    {
      hide StorageOk, TablesOk, SameModel, Quiet, NameTaken, NameIs, Opened, Modelled, ModelOf, Visible;
      ghost var s := View();
      var id := FindInode(name, addr, dirOk, addr2, look);
      if id.None? { return None; }
      ghost var s1 := View();
      NamedInode(s1, name, id.value);
      h := FileOpen(id.value, f, fileOk, multiset{id.value});
      assert multiset{id.value} - multiset{id.value} == multiset{};
      if h.None? {
        QuietSame(s1, View(), multiset{id.value}, multiset{});
        SelfSame(s1, multiset{id.value});
        SameModelTrans(s, s1, s1, View());
      } else {
        AttachModel(s1, f, id.value, multiset{id.value}, multiset{});
        OpenedIs(s, s1, View(), name, f);
      }
    }

    /** filesys_remove. Apart from running out of memory it fails exactly for an unknown name. */
    method FilesysRemove(name: Name, addr: Option<nat>, dirOk: bool, addr2: Option<nat>, look: nat -> bool, eraseOk: bool, mapOk: nat -> bool)
      returns (ok: bool)
      requires Valid(multiset{})
      requires (addr.Some? ==> addr.value !in inodes) && (addr2.Some? ==> addr2.value !in inodes && addr2 != addr)
      modifies this`freeMap, this`inodes, this`openList, this`saved, device
      ensures Valid(multiset{})
      ensures ok ==> Visible(Entries(old(View())), name, look) && eraseOk && Removed(old(View()), View(), name)
      ensures !ok ==> SameModel(old(View()), View()) && freeMap == old(freeMap)
      ensures addr.Some? && dirOk && addr2.Some? ==> (ok <==> Visible(Entries(old(View())), name, look) && eraseOk)
      ensures old(saved) && SavesMap(|freeMap|, mapOk(1)) ==> saved
    {
      hide StorageOk, TablesOk, SameModel, Quiet, TablesOnly, NameTaken, NameRemoved, Removed, Visible, SavesMap;
      ghost var s := View();
      var root := DirOpenRoot(addr, dirOk, multiset{});
      if root.None? {
        QuietSame(s, View(), multiset{}, multiset{});
        return false;
      }
      ghost var q := multiset{root.value};
      assert multiset{} + multiset{root.value} == q;
      ghost var s1 := View();
      OpenedModel(s, s1, multiset{}, q);
      ok := DirRemove(root.value, name, addr2, look, eraseOk, mapOk, q);
      ghost var s2 := View();
      RootIsKept(s2, root.value);
      DirClose(root.value, q);
      assert q - multiset{root.value} == multiset{};
      QuietSame(s2, View(), q, multiset{});
      if ok {
        RemovedOk(s1, s2, name, q);
        RemovedIs(s, s1, s2, View(), name);
      } else {
        QuietSame(s1, s2, q, q);
        SameModelTrans(s, s1, s2, View());
      }
    }

    // ----- file.c -----

    /** file_deny_write; the assertion of inode_deny_write holds. */
    method FileDenyWrite(f: nat)
      requires Valid(multiset{}) && f in files && f != 0
      modifies this`files, this`inodes
      ensures Valid(multiset{}) && Modelled(old(View())) && Modelled(View()) && f in ModelOf(old(View())).handles
      ensures SameStorage(old(View()), View())
      ensures ModelOf(View()) == Deny(ModelOf(old(View())), f, true)
    {
      hide StorageOk, TablesOk, Modelled, ModelOf;
      ghost var s := View();
      HandleFacts(s, f);
      if !files[f].denyWrite {
        SetDenyKeeps(s, f, true, multiset{});
        DenyModel(s, f, true);
        var id := files[f].inode;
        files := files[f := files[f].(denyWrite := true)];
        inodes := inodes[id := inodes[id].(denyCnt := inodes[id].denyCnt + 1)];
        assert inodes[id].denyCnt <= inodes[id].openCnt;
      } else {
        SameDeny(ModelOf(s), f);
        SelfStorage(s);
      }
    }

    /** file_allow_write; the assertions of inode_allow_write hold. */
    method FileAllowWrite(f: nat)
      requires Valid(multiset{}) && f in files && f != 0
      modifies this`files, this`inodes
      ensures Valid(multiset{}) && Modelled(old(View())) && Modelled(View()) && f in ModelOf(old(View())).handles
      ensures SameStorage(old(View()), View())
      ensures ModelOf(View()) == Deny(ModelOf(old(View())), f, false)
      ensures f in files && !files[f].denyWrite && files[f].inode == old(files)[f].inode
    {
      hide StorageOk, TablesOk, Modelled, ModelOf;
      ghost var s := View();
      HandleFacts(s, f);
      if files[f].denyWrite {
        SetDenyKeeps(s, f, false, multiset{});
        DenyModel(s, f, false);
        var id := files[f].inode;
        assert inodes[id].denyCnt > 0 && inodes[id].denyCnt <= inodes[id].openCnt;
        files := files[f := files[f].(denyWrite := false)];
        inodes := inodes[id := inodes[id].(denyCnt := inodes[id].denyCnt - 1)];
      } else {
        SameDeny(ModelOf(s), f);
        SelfStorage(s);
      }
    }

    /** file_close: the last close of a file without a name frees its sectors. */
    method FileClose(f: nat, mapOk: nat -> bool)
      requires Valid(multiset{}) && f in files && f != 0
      modifies this, device
      ensures Valid(multiset{}) && Closed(old(View()), View(), f)
      ensures old(saved) && SavesMap(|freeMap|, mapOk(1)) ==> saved
    {
      hide SavesMap, StorageOk, TablesOk, Modelled, ModelOf, ClosedInode, SameStorage, Closed, Accounted, Released, IsOpen, Live;
      ghost var s := View();
      HandleFacts(s, f);
      FileAllowWrite(f);
      ghost var s1 := View();
      HandleFacts(s1, f);
      var id := TakeReference(f);
      ghost var s2 := View();
      InodeClose(id, mapOk, multiset{id});
      assert multiset{id} - multiset{id} == multiset{};
      OkIsModelled(View(), multiset{});
      ClosedModel(s2, View(), id);
      ClosedIs(s, s1, s2, View(), f);
    }

    /** The end of the life of a file: its reference to the inode passes to the caller. */
    method TakeReference(f: nat) returns (id: nat)
      requires Valid(multiset{}) && f in files && f != 0 && !files[f].denyWrite
      modifies this`files
      ensures id == old(files)[f].inode && id in inodes && Valid(multiset{id})
      ensures Modelled(old(View())) && Modelled(View()) && f in ModelOf(old(View())).handles && SameStorage(old(View()), View())
      ensures ModelOf(View()) == ModelOf(old(View())).(handles := ModelOf(old(View())).handles - {f})
    {
      hide StorageOk, TablesOk, Modelled, ModelOf, SameStorage;
      ghost var s := View();
      HandleFacts(s, f);
      DetachKeeps(s, f, multiset{});
      id := files[f].inode;
      files := files - {f};
      assert multiset{} + multiset{id} == multiset{id};
      DetachModel(s, f, multiset{id});
    }

    /** file_reopen: another handle on the same file, at position 0. */
    method FileReopen(f: nat, g: nat, fileOk: bool) returns (h: Option<nat>)
      requires Valid(multiset{}) && f in files && f != 0 && g !in files && g != 0
      modifies this`inodes, this`openList, this`files
      ensures Valid(multiset{}) && (h.Some? <==> fileOk)
      ensures h.None? ==> SameModel(old(View()), View())
      ensures h.Some? ==> h.value == g && Reopened(old(View()), View(), f, g)
    {
      hide StorageOk, TablesOk, Modelled, ModelOf, Quiet, SameModel, Reopened, Live;
      ghost var s := View();
      HandleFacts(s, f);
      var id := files[f].inode;
      ReopenKeeps(s, id, multiset{});
      CountsAre(s, id, multiset{});
      ghost var q := multiset{} + multiset{id};
      inodes := inodes[id := inodes[id].(openCnt := inodes[id].openCnt + 1)];
      ghost var s1 := View();
      ReopenedModel(s, s1, id, q);
      h := FileOpen(id, g, fileOk, q);
      assert q - multiset{id} == multiset{};
      if h.None? {
        QuietSame(s1, View(), q, multiset{});
        SelfSame(s1, q);
        SameModelTrans(s, s1, s1, View());
      } else {
        AttachModel(s1, g, id, q, multiset{});
        ReopenedIs(s, s1, View(), f, g, s.inodes[id].sector);
      }
    }

    /** file_read_at: the bytes of the file that the request covers. */
    method FileReadAt(f: nat, size: int, offset: nat, bounceOk: bool) returns (buffer: Bytes)
      requires Valid(multiset{}) && f in files && f != 0
      ensures Modelled(View()) && ReadResult(ModelOf(View()), f, size, offset, bounceOk, buffer)
    {
      hide StorageOk, TablesOk, Modelled, ModelOf, FileBytes, Live;
      HandleFacts(View(), f);
      var node := inodes[files[f].inode];
      InodeFits(device.sectors, node.sector);
      buffer := device.InodeReadAt(node.data.start, node.data.length, size, offset, bounceOk);
    }

    /** file_read: reading at the position of the handle, which then moves past what was read. */
    method FileRead(f: nat, size: int, bounceOk: bool) returns (buffer: Bytes)
      requires Valid(multiset{}) && f in files && f != 0
      modifies this`files
      ensures Valid(multiset{}) && ReadOn(old(View()), View(), f, size, bounceOk, buffer)
    {
      hide StorageOk, TablesOk, Modelled, ModelOf, ReadResult;
      HandleFacts(View(), f);
      buffer := FileReadAt(f, size, files[f].pos, bounceOk);
      SetPosKeeps(View(), f, files[f].pos + |buffer|, multiset{});
      SeekModel(View(), f, files[f].pos + |buffer|);
      files := files[f := files[f].(pos := files[f].pos + |buffer|)];
    }

    /** file_write_at: replaces the range of the file that the request covers and leaves
        everything else alone; writes nothing while writing is denied. */
    method FileWriteAt(f: nat, buffer: Bytes, size: int, offset: nat, bounceOk: bool) returns (n: nat)
      requires Valid(multiset{}) && f in files && f != 0 && size <= |buffer|
      modifies device
      ensures Valid(multiset{}) && n <= |buffer| && Written(old(View()), View(), f, offset, buffer[..n])
      ensures WriteCount(ModelOf(old(View())), f, size, offset, bounceOk, n)
    {
      hide StorageOk, TablesOk, Modelled, ModelOf, Written, Overwrite, Live, Content, WritesDenied;
      ghost var s := View();
      HandleFacts(s, f);
      var id := files[f].inode;
      var node := inodes[id];
      InodeFits(s.disk, node.sector);
      DeniedFacts(s, id);
      ContentLength(s.disk, node.sector);
      n := device.InodeWriteAt(node.data.start, node.data.length, node.denyCnt != 0, buffer, size, offset, bounceOk);
      WrittenIs(s, View(), f, offset, buffer[..n]);
    }

    /** file_write: writing at the position of the handle, which then moves past what was
        written. */
    method FileWrite(f: nat, buffer: Bytes, size: int, bounceOk: bool) returns (n: nat)
      requires Valid(multiset{}) && f in files && f != 0 && size <= |buffer|
      modifies this`files, device
      ensures Valid(multiset{}) && freeMap == old(freeMap) && n <= |buffer| && WrittenOn(old(View()), View(), f, buffer[..n])
      ensures WriteCount(ModelOf(old(View())), f, size, ModelOf(old(View())).handles[f].pos, bounceOk, n)
    {
      hide StorageOk, TablesOk, Modelled, ModelOf, WriteCount, Written, CanWrite, Live, Content, InodeOk, Accounted, SameStorage;
      ghost var s := View();
      HandleFacts(s, f);
      n := FileWriteAt(f, buffer, size, files[f].pos, bounceOk);
      ghost var s1 := View();
      WrittenParts(s, s1, f, files[f].pos, buffer[..n]);
      hide Write, Seek;
      SetPosKeeps(s1, f, files[f].pos + n, multiset{});
      SeekModel(s1, f, files[f].pos + n);
      files := files[f := files[f].(pos := files[f].pos + n)];
      WrittenOnIs(s, s1, View(), f, buffer[..n]);
    }

    /** file_seek */
    method FileSeek(f: nat, newPos: nat)
      requires Valid(multiset{}) && f in files && f != 0
      modifies this`files
      ensures Valid(multiset{}) && Modelled(old(View())) && Modelled(View()) && f in ModelOf(old(View())).handles
      ensures SameStorage(old(View()), View()) && ModelOf(View()) == Seek(ModelOf(old(View())), f, newPos)
    {
      hide StorageOk, TablesOk;
      SetPosKeeps(View(), f, newPos, multiset{});
      SeekModel(View(), f, newPos);
      files := files[f := files[f].(pos := newPos)];
    }

    /** file_length is the length of the contents. */
    method FileLength(f: nat) returns (length: int)
      requires Valid(multiset{}) && f in files && f != 0
      ensures Modelled(View()) && f in ModelOf(View()).handles && ModelOf(View()).handles[f].file in ModelOf(View()).contents
      ensures length == |ModelOf(View()).contents[ModelOf(View()).handles[f].file]|
    {
      hide StorageOk, TablesOk;
      HandleFacts(View(), f);
      ContentLength(device.sectors, inodes[files[f].inode].sector);
      length := inodes[files[f].inode].data.length;
    }

    // ----- formatting -----

    /** do_format, on a device whose inode of the free map will be kept at addr. It gives up,
        where the kernel would panic, exactly when there is no memory, or the free map or the root
        directory does not fit on the device, or the free map cannot be saved. */
    method Format(addr: nat, memoryOk: bool, mapOk: nat -> bool) returns (ok: bool)
      requires DeviceOk(device.sectors) && freeMap == InitialMap(|device.sectors|)
      requires inodes == map[] && openList == [] && files == map[]
      modifies this, device
      ensures ok ==> Valid(multiset{}) && Modelled(View()) && ModelOf(View()) == Model(map[], map[], map[]) && saved
      ensures ok ==> forall z: nat :: !Spare(View(), z)
      ensures ok <==> memoryOk && CanFormat(old(device.sectors)) && SavesMap(|freeMap|, mapOk(0)) && SavesMap(|freeMap|, mapOk(1))
      ensures |freeMap| == |old(freeMap)|
    {
      hide StorageOk, TablesOk, Modelled, ModelOf, NewInode, InodeOk, AllFree, Overwrite, Layout, EncodeMap, Spare, CanFormat, MapBytes, SectorsFor, SavesMap;
      ghost var d := device.sectors;
      if !memoryOk { return false; }
      var x := CreateMapFile();
      if x.None? { return false; }
      var id := addr;
      inodes, openList := map[id := Inode(FREE_MAP_SECTOR, 1, false, 0, DecodeInode(device.sectors[FREE_MAP_SECTOR]))], [id];
      files := map[0 := File(id, 0, false)];
      MapFits(d, x.value);
      ok := SaveMap(id, mapOk(0));
      if !ok { return; }
      var y := ScanFree(freeMap, 1);
      PlanIs(d, x.value, y);
      if y.None? { return false; }
      freeMap := SetRange(freeMap, y.value, 1, true);
      RootFits(d, x.value, y.value);
      ok := SaveMap(id, mapOk(1));
      if !ok { return; }
      WriteInode(ROOT_DIR_SECTOR, InodeDisk(y.value, ROOT_BYTES));
      FormatIsEmpty(d, x.value, y.value, id);
      assert View() == FormattedFs(d, x.value, y.value, id);
    }

    /** free_map_create up to the opening of the file: the map is not saved, for there is no
        file to save it in. */
    method CreateMapFile() returns (x: Option<nat>)
      requires DeviceOk(device.sectors) && freeMap == InitialMap(|device.sectors|)
      modifies this`freeMap, device
      ensures x.None? ==> !CanFormat(old(device.sectors)) && freeMap == old(freeMap)
      ensures x.Some? ==> FirstFree(InitialMap(|old(device.sectors)|), x.value, SectorsFor(MapBytes(|old(device.sectors)|))) && x.value < B32
      ensures x.Some? ==> freeMap == Map1(old(device.sectors), x.value) && device.sectors == Disk1(old(device.sectors), x.value)
    {
      x := ScanFree(freeMap, SectorsFor(MapBytes(|freeMap|)));
      if x.None? { return; }
      ghost var d := device.sectors;
      freeMap := SetRange(freeMap, x.value, SectorsFor(MapBytes(|freeMap|)), true);
      assert InitialMap(|d|)[0];
      WriteInode(FREE_MAP_SECTOR, InodeDisk(x.value, MapBytes(|freeMap|)));
    }

    /** bitmap_write while the root directory does not exist yet. */
    method SaveMap(id: nat, bounceOk: bool) returns (ok: bool)
      requires id in inodes && DiskOk(device.sectors) && inodes[id].data.length >= 0 && inodes[id].denyCnt == 0
      requires inodes[id].data.start + SectorsFor(inodes[id].data.length) <= |device.sectors|
      requires |EncodeMap(freeMap)| == inodes[id].data.length == MapBytes(|freeMap|)
      modifies this`saved, device
      ensures DiskOk(device.sectors) && ok == saved == SavesMap(|freeMap|, bounceOk)
      ensures device.sectors == Overwrite(old(device.sectors), 512 * inodes[id].data.start, MapPart(freeMap, bounceOk))
    {
      hide Overwrite, EncodeMap, SavesMap;
      var node, b := inodes[id], EncodeMap(freeMap);
      var n := device.InodeWriteAt(node.data.start, node.data.length, node.denyCnt != 0, b, |b|, 0, bounceOk);
      AllSaved(|freeMap|, bounceOk);
      ok := n == |b|;
      saved := ok;
    }

    /** filesys_init without formatting, on the disk that a run has left in the state s: the map
        file is opened and the free map is read from it. */
    method Mount(ghost s: Fs, addr: Option<nat>, fileOk: bool, bounceOk: bool) returns (ok: bool)
      requires Ok(s, multiset{}) && s.saved && device.sectors == s.disk
      requires freeMap == InitialMap(|device.sectors|) && inodes == map[] && openList == [] && files == map[]
      modifies this
      ensures DiskOk(s.disk) && InodeOk(s.disk, FREE_MAP_SECTOR)
      ensures ok <==> addr.Some? && fileOk && SavesMap(|s.freeMap|, bounceOk)
      ensures ok ==> View() == Mounted(s, addr.value) && Valid(multiset{})
    {
      hide Ok, DecodeMap, FileBytes, InodeOk, SavesMap, Modelled, ModelOf;
      MapIsRead(s);
      if addr.None? || !fileOk { return false; }
      var id, desc := addr.value, DecodeInode(device.sectors[FREE_MAP_SECTOR]);
      inodes, openList := map[id := Inode(FREE_MAP_SECTOR, 1, false, 0, desc)], [id];
      files := map[0 := File(id, 0, false)];
      var b := device.InodeReadAt(desc.start, desc.length, MapBytes(|freeMap|), 0, bounceOk);
      AllSaved(|freeMap|, bounceOk);
      if |b| != MapBytes(|freeMap|) { return false; }
      assert b == FileBytes(s.disk, desc.start, desc.length);
      freeMap, saved := DecodeMap(b, |freeMap|), true;
      MountKeeps(s, id);
      ok := true;
    }

    /** bitmap_read in free_map_open: it gives up exactly for lack of memory, and otherwise reads
        the free map if that has been saved. */
    method BitmapRead(bounceOk: bool) returns (m: Option<seq<bool>>)
      requires Valid(multiset{})
      ensures m.Some? <==> SavesMap(|freeMap|, bounceOk)
      ensures m.Some? && saved ==> m.value == freeMap
    {
      hide StorageOk, TablesOk, EncodeMap, DecodeMap, FileBytes, InodeOk, SavesMap;
      FreeMapFile(View(), multiset{});
      var node := inodes[files[0].inode];
      InodeFits(device.sectors, FREE_MAP_SECTOR);
      var b := device.InodeReadAt(node.data.start, node.data.length, MapBytes(|freeMap|), 0, bounceOk);
      AllSaved(|freeMap|, bounceOk);
      if |b| != MapBytes(|freeMap|) { return None; }
      if saved {
        MapIsOnDisk(View());
        MapRoundTrip(freeMap);
        assert b == EncodeMap(freeMap) by { MapNotEmpty(View()); }
      }
      m := Some(DecodeMap(b, |freeMap|));
    }
  }
}
