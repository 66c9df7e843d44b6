/** Shutting down and starting again: what filesys_init without formatting finds on a disk that an
    earlier run has left (Project 2/src/filesys/filesys.c, free-map.c). */
module FsMount {
  import opened FsLayout
  import opened FsDevice
  import opened FsInvariant
  import opened FsLemmas
  import opened FsEffects
  import opened FsModel
  import opened FsFormat
  import opened FsTheorems

  /** The free map is read from its file; nothing else is open. */
  ghost function Mounted(s: Fs, id: nat): Fs
    requires DiskOk(s.disk) && InodeOk(s.disk, FREE_MAP_SECTOR)
  {
    Fs(s.disk, s.freeMap, map[id := Inode(FREE_MAP_SECTOR, 1, false, 0, Desc(s.disk, FREE_MAP_SECTOR))], [id], map[0 := File(id, 0, false)], true)
  }

  lemma MountedStorage(s: Fs, id: nat)
    requires StorageOk(s) && s.saved
    ensures DiskOk(s.disk) && InodeOk(s.disk, FREE_MAP_SECTOR) && InodeOk(s.disk, ROOT_DIR_SECTOR)
    ensures var s' := Mounted(s, id);
            StorageOk(s') && Entries(s') == Entries(s) && Live(s') == {FREE_MAP_SECTOR, ROOT_DIR_SECTOR} + Named(Entries(s)) <= Live(s)
  {
    StorageFacts(s);
    SystemFilesStay(s, id);
    MountedInodes(s, id);
    hide StorageOk, Layout, DirOk, Named, Entries, InodeOk, Desc, SystemFilesOk, InodesOk, Faithful, OpenSectors, Live;
    var s' := Mounted(s, id);
    MountedLive(s, id);
    LayoutSubset(s.disk, s.freeMap, Live(s), Live(s'));
    StorageIs(s');
  }

  lemma SystemFilesStay(s: Fs, id: nat)
    requires SystemFilesOk(s) && s.saved
    ensures SystemFilesOk(Mounted(s, id)) && Entries(Mounted(s, id)) == Entries(s)
  {
    hide EncodeMap, DirEntries, Desc;
  }

  lemma MountedLive(s: Fs, id: nat)
    requires SystemFilesOk(s) && SystemFilesOk(Mounted(s, id))
    ensures Live(Mounted(s, id)) == {FREE_MAP_SECTOR, ROOT_DIR_SECTOR} + Named(Entries(Mounted(s, id)))
  {
    var s' := Mounted(s, id);
    hide SystemFilesOk, Named, Entries, Desc, InodeOk;
    assert OpenSectors(s'.inodes) == {FREE_MAP_SECTOR} by { assert s'.inodes[id].sector == FREE_MAP_SECTOR; }
  }

  lemma MountedInodes(s: Fs, id: nat)
    requires SystemFilesOk(s) && SystemFilesOk(Mounted(s, id))
    ensures InodesOk(Mounted(s, id))
  {
  }

  lemma StorageIs(s: Fs)
    requires SystemFilesOk(s) && DirOk(Entries(s)) && Layout(s.disk, s.freeMap, Live(s)) && InodesOk(s)
    ensures StorageOk(s)
  {
  }

  lemma MountedTables(s: Fs, id: nat)
    requires DiskOk(s.disk) && InodeOk(s.disk, FREE_MAP_SECTOR)
    ensures TablesOk(Mounted(s, id), multiset{})
  {
    var s' := Mounted(s, id);
    assert HandlesOf(s'.files, id) == {0} && DenyersOf(s'.files, id) == {};
  }

  /** Names and the contents of named files survive; handles and files without a name do not. */
  ghost function Survives(m: Model): Model {
    Model(m.names, map f | f in m.contents && f in m.names.Values :: m.contents[f], map[])
  }

  /** If the last write of the free map was complete, the new run starts in a consistent state with
      every name and the contents of every named file. */
  lemma MountKeeps(s: Fs, id: nat)
    requires Ok(s, multiset{}) && s.saved
    ensures DiskOk(s.disk) && InodeOk(s.disk, FREE_MAP_SECTOR)
    ensures var s' := Mounted(s, id);
            Ok(s', multiset{}) && Modelled(s) && Modelled(s') && ModelOf(s') == Survives(ModelOf(s))
  {
    MountedStorage(s, id);
    MountedTables(s, id);
    var s' := Mounted(s, id);
    OkIsModelled(s, multiset{});
    OkIsModelled(s', multiset{});
    MountedModel(s, s');
  }

  /** What bitmap_read reads is the map of the earlier run. */
  lemma MapIsRead(s: Fs)
    requires Ok(s, multiset{}) && s.saved
    ensures DiskOk(s.disk) && InodeOk(s.disk, FREE_MAP_SECTOR) && |s.freeMap| == |s.disk| && MapBytes(|s.freeMap|) > 0
    ensures var desc := Desc(s.disk, FREE_MAP_SECTOR);
            && desc.length == MapBytes(|s.freeMap|) && 512 * desc.start + desc.length <= 512 * |s.disk|
            && DecodeMap(FileBytes(s.disk, desc.start, desc.length), |s.freeMap|) == s.freeMap
  {
    StorageFacts(s);
    MapIsOnDisk(s);
    MapNotEmpty(s);
    hide StorageOk, Layout, DirOk, Named, Entries, InodeOk, EncodeMap, DecodeMap, Desc, FileBytes, TablesOk;
    MapRoundTrip(s.freeMap);
  }

  lemma MountedModel(s: Fs, s': Fs)
    requires Modelled(s) && Modelled(s') && s'.disk == s.disk && (forall f | f in s'.files :: f == 0)
    requires Entries(s') == Entries(s) && Live(s') == {FREE_MAP_SECTOR, ROOT_DIR_SECTOR} + Named(Entries(s)) <= Live(s)
    ensures ModelOf(s') == Survives(ModelOf(s))
  {
    MountedContents(s, s');
    HasInodesOf(s');
    NoHandlesLeft(s');
    PartsSurvive(s, s');
  }

  lemma HasInodesOf(s: Fs)
    requires Modelled(s)
    ensures HasInodes(s)
  {
    hide StorageOk, HasInodes;
  }

  lemma PartsSurvive(s: Fs, s': Fs)
    requires Modelled(s) && Modelled(s') && Entries(s') == Entries(s) && HasInodes(s') && HandlesIn(s') == map[]
    requires ContentsOf(s') == map f | f in ContentsOf(s) && f in NamesOf(Entries(s)).Values :: ContentsOf(s)[f]
    ensures ModelOf(s') == Survives(ModelOf(s))
  {
    hide StorageOk, HasInodes, NamesOf, Live, Entries, ContentsOf, HandlesIn;
  }

  lemma MountedContents(s: Fs, s': Fs)
    requires Modelled(s) && Modelled(s') && s'.disk == s.disk
    requires Entries(s') == Entries(s) && Live(s') == {FREE_MAP_SECTOR, ROOT_DIR_SECTOR} + Named(Entries(s)) <= Live(s)
    ensures ContentsOf(s') == map f | f in ContentsOf(s) && f in NamesOf(Entries(s)).Values :: ContentsOf(s)[f]
  {
    ModelledFacts(s);
    ModelledFacts(s');
    SameDiskFiles(s, s');
    StorageFacts(s);
    NamedAreValues(Entries(s));
    hide Modelled, StorageOk, HasInodes, NamesOf, Live, Named, DirOk, Layout, SystemFilesOk, Faithful, Entries, ContentsOf, InodeOk, SameFiles;
    FewerSame(s, s', Live(s), Live(s') - {ROOT_DIR_SECTOR});
    FewerContents(s, s');
    assert ContentsOf(s').Keys == {FREE_MAP_SECTOR, ROOT_DIR_SECTOR} + NamesOf(Entries(s)).Values - {FREE_MAP_SECTOR, ROOT_DIR_SECTOR};
    SurvivingContents(ContentsOf(s), ContentsOf(s'), NamesOf(Entries(s)).Values, Live(s));
  }

  lemma SurvivingContents(c: map<nat, Bytes>, c': map<nat, Bytes>, named: set<nat>, live: set<nat>)
    requires forall a | a in c' :: a in c && c'[a] == c[a]
    requires c.Keys == live - {FREE_MAP_SECTOR, ROOT_DIR_SECTOR} && named <= live
    requires c'.Keys == {FREE_MAP_SECTOR, ROOT_DIR_SECTOR} + named - {FREE_MAP_SECTOR, ROOT_DIR_SECTOR}
    ensures c' == map f | f in c && f in named :: c[f]
  {
  }

  lemma NoHandlesLeft(s: Fs)
    requires HasInodes(s) && forall f | f in s.files :: f == 0
    ensures HandlesIn(s) == map[]
  {
  }

  /** Exactly the sectors of files that were open without a name are lost: they stay marked and no
      longer belong to anybody. */
  lemma RemovedButOpenIsLost(s: Fs, id: nat, x: nat)
    requires Ok(s, multiset{}) && s.saved && DiskOk(s.disk) && InodeOk(s.disk, FREE_MAP_SECTOR) && Modelled(s) && x < |s.disk|
    ensures forall a | a in ModelOf(s).contents :: a < |s.disk|
    ensures Spare(Mounted(s, id), x)
            <==> Spare(s, x) || exists a :: a in ModelOf(s).contents && a !in ModelOf(s).names.Values && Owns(s.disk, a, x)
  {
    MountedStorage(s, id);
    var s' := Mounted(s, id);
    LiveIs(s);
    SystemFacts(s);
    StorageFacts(s);
    NamedAreValues(Entries(s));
    NamedNotSystem(Entries(s));
    LostSectors(s, s', x);
  }

  lemma LostSectors(s: Fs, s': Fs, x: nat)
    requires StorageOk(s) && StorageOk(s') && s'.disk == s.disk && s'.freeMap == s.freeMap && DiskOk(s.disk) && Modelled(s) && x < |s.disk|
    requires DiskOk(s.disk) && InodeOk(s.disk, ROOT_DIR_SECTOR) && forall a | a in Live(s) :: a < |s.disk|
    requires Live(s) == {FREE_MAP_SECTOR, ROOT_DIR_SECTOR} + ModelOf(s).contents.Keys
    requires Live(s') == {FREE_MAP_SECTOR, ROOT_DIR_SECTOR} + ModelOf(s).names.Values <= Live(s)
    requires FREE_MAP_SECTOR !in ModelOf(s).contents && ROOT_DIR_SECTOR !in ModelOf(s).contents
    ensures Spare(s', x) <==> Spare(s, x) || exists a :: a in ModelOf(s).contents && a !in ModelOf(s).names.Values && Owns(s.disk, a, x)
  {
    OwnedOrSpare(s, x);
    OwnedOrSpare(s', x);
    if a :| a in ModelOf(s).contents && a !in ModelOf(s).names.Values && Owns(s.disk, a, x) {
      forall b | b in Live(s') ensures !Owns(s.disk, b, x) { ExtentsAreDisjoint(s, a, b, x); }
      ExtentsAreDisjoint(s, a, a, x);
    }
    hide StorageOk, Live, Owns, ModelOf, Modelled;
  }
}
