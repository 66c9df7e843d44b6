/** Formatting: the state that do_format (Project 2/src/filesys/filesys.c) leaves behind. */
module FsFormat {
  import opened Machine
  import opened FsLayout
  import opened FsDevice
  import opened FsInvariant
  import opened FsLemmas
  import opened Bitmaps
  import opened FsModel

  /** free_map_init */
  function InitialMap(n: nat): (m: seq<bool>)
    ensures |m| == n
  {
    seq(n, i => i == FREE_MAP_SECTOR || i == ROOT_DIR_SECTOR)
  }

  predicate DeviceOk(d: Disk) { DiskOk(d) && 2 <= |d| <= B31 }

  function MapInode(d: Disk, x: u32): InodeDisk
    requires DeviceOk(d)
  {
    InodeDisk(x, MapBytes(|d|))
  }

  const ROOT_BYTES := 320

  /** The extent of the free-map file starts at x, that of the root directory at y. */
  ghost predicate Plan(d: Disk, x: nat, y: nat) {
    && DeviceOk(d) && x < B32 && y < B32
    && AllFree(InitialMap(|d|), x, SectorsFor(MapBytes(|d|)))
    && AllFree(Map1(d, x), y, 1)
  }

  ghost function Map1(d: Disk, x: nat): (m: seq<bool>)
    ensures |m| == |d|
  {
    SetRange(InitialMap(|d|), x, SectorsFor(MapBytes(|d|)), true)
  }

  ghost function Map2(d: Disk, x: nat, y: nat): (m: seq<bool>)
    ensures |m| == |d|
  {
    SetRange(Map1(d, x), y, 1, true)
  }

  /** The free-map inode has been created. */
  ghost function Disk1(d: Disk, x: nat): Disk
    requires DeviceOk(d) && x < B32
  {
    NewInode(d, FREE_MAP_SECTOR, MapInode(d, x))
  }

  lemma Create1(d: Disk, x: nat)
    requires DeviceOk(d) && x < B32 && AllFree(InitialMap(|d|), x, SectorsFor(MapBytes(|d|)))
    ensures Desc(Disk1(d, x), FREE_MAP_SECTOR) == MapInode(d, x) && InodeOk(Disk1(d, x), FREE_MAP_SECTOR)
    ensures Layout(Disk1(d, x), Map1(d, x), {FREE_MAP_SECTOR})
  {
    var n := SectorsFor(MapBytes(|d|));
    assert n > 0;
    assert !(x <= 0 < x + n) by { assert InitialMap(|d|)[0]; }
    NewInodeIsEmptyFile(d, FREE_MAP_SECTOR, MapInode(d, x));
  }

  /** A whole new free map written to its file. */
  lemma WriteMap(d: Disk, m: seq<bool>, b: Bytes)
    requires Layout(d, m, {FREE_MAP_SECTOR}) && InodeOk(d, FREE_MAP_SECTOR) && |b| == Desc(d, FREE_MAP_SECTOR).length
    ensures var d' := WriteFile(d, FREE_MAP_SECTOR, 0, b);
            && Layout(d', m, {FREE_MAP_SECTOR}) && InodeOk(d', FREE_MAP_SECTOR)
            && Desc(d', FREE_MAP_SECTOR) == Desc(d, FREE_MAP_SECTOR) && Content(d', FREE_MAP_SECTOR) == b
  {
    WriteKeepsLayout(d, m, {FREE_MAP_SECTOR}, FREE_MAP_SECTOR, 0, b);
    WriteContents(d, m, {FREE_MAP_SECTOR}, FREE_MAP_SECTOR, 0, b, FREE_MAP_SECTOR);
    assert Splice(Content(d, FREE_MAP_SECTOR), 0, b) == b;
  }

  /** The root directory joins the free map on a disk whose map has just grown by its extent. */
  lemma Create2(d: Disk, m: seq<bool>, y: nat)
    requires Layout(d, m, {FREE_MAP_SECTOR}) && InodeOk(d, FREE_MAP_SECTOR) && 2 <= |d| && y < B32
    requires m[FREE_MAP_SECTOR] && m[ROOT_DIR_SECTOR] && AllFree(m, y, 1)
    requires forall z: nat | z < |d| && Owns(d, FREE_MAP_SECTOR, z) :: z != ROOT_DIR_SECTOR
    ensures var d', i := NewInode(d, ROOT_DIR_SECTOR, InodeDisk(y, ROOT_BYTES)), InodeDisk(y, ROOT_BYTES);
            && DiskOk(d') && |d'| == |d| && InodeOk(d', ROOT_DIR_SECTOR) && Desc(d', ROOT_DIR_SECTOR) == i
            && Content(d', ROOT_DIR_SECTOR) == Zeros(ROOT_BYTES)
            && InodeOk(d', FREE_MAP_SECTOR) && Desc(d', FREE_MAP_SECTOR) == Desc(d, FREE_MAP_SECTOR)
            && Content(d', FREE_MAP_SECTOR) == Content(d, FREE_MAP_SECTOR)
            && Layout(d', SetRange(m, y, 1, true), {FREE_MAP_SECTOR, ROOT_DIR_SECTOR})
  {
    var i := InodeDisk(y, ROOT_BYTES);
    var d' := NewInode(d, ROOT_DIR_SECTOR, i);
    NewInodeIsEmptyFile(d, ROOT_DIR_SECTOR, i);
    forall z: nat | z < |d| && Owns(d, FREE_MAP_SECTOR, z) ensures d'[z] == d[z] && z != y { assert m[z]; }
    assert Owns(d, FREE_MAP_SECTOR, FREE_MAP_SECTOR);
    SameData(d, d', FREE_MAP_SECTOR);
    RootLayout(d, d', m, y);
  }

  lemma RootLayout(d: Disk, d': Disk, m: seq<bool>, y: nat)
    requires Layout(d, m, {FREE_MAP_SECTOR}) && DiskOk(d') && |d'| == |d| && 2 <= |d| && y < B32
    requires m[ROOT_DIR_SECTOR] && InodeOk(d', ROOT_DIR_SECTOR) && Desc(d', ROOT_DIR_SECTOR) == InodeDisk(y, ROOT_BYTES)
    requires d'[FREE_MAP_SECTOR] == d[FREE_MAP_SECTOR]
    requires forall z: nat | z < |d| && Owns(d, FREE_MAP_SECTOR, z) :: z != ROOT_DIR_SECTOR && z != y
    ensures Layout(d', SetRange(m, y, 1, true), {FREE_MAP_SECTOR, ROOT_DIR_SECTOR})
  {
    hide Layout, InodeOk, Desc, Owns;
    var m' := SetRange(m, y, 1, true);
    SameInodesSameLayout(d, d', m, {FREE_MAP_SECTOR});
    LayoutFacts(d, m, FREE_MAP_SECTOR);
    LayoutFacts(d', m, FREE_MAP_SECTOR);
    SameOwnership(d, d', FREE_MAP_SECTOR);
    RootOwns(d', y);
    LayoutMap(d', m, m', {FREE_MAP_SECTOR});
    LayoutAdd(d', m', {FREE_MAP_SECTOR}, ROOT_DIR_SECTOR);
    assert {FREE_MAP_SECTOR} + {ROOT_DIR_SECTOR} == {FREE_MAP_SECTOR, ROOT_DIR_SECTOR};
  }

  lemma LayoutFacts(d: Disk, m: seq<bool>, a: nat)
    requires Layout(d, m, {a})
    ensures DiskOk(d) && |m| == |d| && a < |d| && forall z: nat | z < |d| && Owns(d, a, z) :: m[z]
  {
  }

  lemma SameOwnership(d: Disk, d': Disk, a: nat)
    requires DiskOk(d) && DiskOk(d') && |d| == |d'| && a < |d| && d'[a] == d[a]
    ensures forall z: nat :: Owns(d', a, z) <==> Owns(d, a, z)
  {
  }

  lemma RootOwns(d: Disk, y: nat)
    requires DiskOk(d) && 2 <= |d| && y < B32 && Desc(d, ROOT_DIR_SECTOR) == InodeDisk(y, ROOT_BYTES)
    ensures forall z: nat :: Owns(d, ROOT_DIR_SECTOR, z) <==> z == ROOT_DIR_SECTOR || z == y
  {
    assert SectorsFor(ROOT_BYTES) == 1;
    hide SectorsFor;
  }

  lemma EmptyDirectory()
    ensures var es := DirEntries(Zeros(ROOT_BYTES)); DirOk(es) && NamesOf(es) == map[] && Named(es) == {} && |es| == DIR_ENTRIES
  {
    var es := DirEntries(Zeros(ROOT_BYTES));
    forall j: nat | j < |es| ensures !InUse(es, j) { }
    assert NameSet(es) == {};
  }

  /** The four writes of formatting, in order. */
  ghost function Formatted(d: Disk, x: nat, y: nat): Disk
    requires Plan(d, x, y)
  {
    var d2 := Overwrite(Disk1(d, x), 512 * x, EncodeMap(Map1(d, x)));
    NewInode(Overwrite(d2, 512 * x, EncodeMap(Map2(d, x, y))), ROOT_DIR_SECTOR, InodeDisk(y, ROOT_BYTES))
  }

  lemma FormattedDisk(d: Disk, x: nat, y: nat)
    requires Plan(d, x, y)
    ensures var d', m := Formatted(d, x, y), Map2(d, x, y);
            && DiskOk(d') && |d'| == |d| && InodeOk(d', FREE_MAP_SECTOR) && InodeOk(d', ROOT_DIR_SECTOR)
            && Desc(d', FREE_MAP_SECTOR) == MapInode(d, x) && Desc(d', ROOT_DIR_SECTOR) == InodeDisk(y, ROOT_BYTES)
            && Content(d', FREE_MAP_SECTOR) == EncodeMap(m) && Content(d', ROOT_DIR_SECTOR) == Zeros(ROOT_BYTES)
            && Layout(d', m, {FREE_MAP_SECTOR, ROOT_DIR_SECTOR})
  {
    hide Layout, Content, Overwrite, NewInode, EncodeMap, InodeOk;
    Create1(d, x);
    var d1 := Disk1(d, x);
    WriteMap(d1, Map1(d, x), EncodeMap(Map1(d, x)));
    var d2 := WriteFile(d1, FREE_MAP_SECTOR, 0, EncodeMap(Map1(d, x)));
    WriteMap(d2, Map1(d, x), EncodeMap(Map2(d, x, y)));
    var d3 := WriteFile(d2, FREE_MAP_SECTOR, 0, EncodeMap(Map2(d, x, y)));
    MapAvoidsRoot(d, d3, x);
    Create2(d3, Map1(d, x), y);
  }

  lemma MapAvoidsRoot(d: Disk, d3: Disk, x: nat)
    requires DeviceOk(d) && x < B32 && AllFree(InitialMap(|d|), x, SectorsFor(MapBytes(|d|)))
    requires DiskOk(d3) && |d3| == |d| && Desc(d3, FREE_MAP_SECTOR) == MapInode(d, x)
    ensures Map1(d, x)[FREE_MAP_SECTOR] && Map1(d, x)[ROOT_DIR_SECTOR]
    ensures forall z: nat | z < |d| && Owns(d3, FREE_MAP_SECTOR, z) :: z != ROOT_DIR_SECTOR
  {
    assert InitialMap(|d|)[ROOT_DIR_SECTOR];
  }

  /** The tables after formatting: the free map's file is the only open one. */
  ghost function FormattedFs(d: Disk, x: nat, y: nat, id: nat): Fs
    requires Plan(d, x, y)
  {
    Fs(Formatted(d, x, y), Map2(d, x, y), map[id := Inode(FREE_MAP_SECTOR, 1, false, 0, MapInode(d, x))], [id],
       map[0 := File(id, 0, false)], true)
  }

  lemma FormattedStorage(d: Disk, x: nat, y: nat, id: nat)
    requires Plan(d, x, y)
    ensures var s := FormattedFs(d, x, y, id);
            && StorageOk(s) && Live(s) == {FREE_MAP_SECTOR, ROOT_DIR_SECTOR} && NamesOf(Entries(s)) == map[]
  {
    hide Layout, Content, Formatted, EncodeMap, InodeOk, Desc, DirEntries, NamesOf, DirOk, Named;
    var s := FormattedFs(d, x, y, id);
    FormattedDisk(d, x, y);
    EmptyDirectory();
    assert OpenSectors(s.inodes) == {FREE_MAP_SECTOR} by { assert s.inodes[id].sector == FREE_MAP_SECTOR; }
    assert Live(s) == {FREE_MAP_SECTOR, ROOT_DIR_SECTOR};
  }

  lemma FormattedTables(d: Disk, x: nat, y: nat, id: nat)
    requires Plan(d, x, y)
    ensures TablesOk(FormattedFs(d, x, y, id), multiset{})
  {
    hide Formatted;
    var s := FormattedFs(d, x, y, id);
    assert HandlesOf(s.files, id) == {0} && DenyersOf(s.files, id) == {};
  }

  /** A formatted file system has no names, no files and no handles, and every marked sector
      belongs to the free map or the root directory. */
  lemma FormatIsEmpty(d: Disk, x: nat, y: nat, id: nat)
    requires Plan(d, x, y)
    ensures var s := FormattedFs(d, x, y, id);
            && Ok(s, multiset{}) && Modelled(s) && ModelOf(s) == Model(map[], map[], map[]) && forall z: nat :: !Spare(s, z)
  {
    hide StorageOk, TablesOk, Formatted, Owns;
    var s := FormattedFs(d, x, y, id);
    FormattedStorage(d, x, y, id);
    FormattedTables(d, x, y, id);
    OkIsModelled(s, multiset{});
    NothingSpare(d, x, y);
    SystemFacts(s);
    EmptyModel(s);
  }

  lemma EmptyModel(s: Fs)
    requires Modelled(s) && Live(s) == {FREE_MAP_SECTOR, ROOT_DIR_SECTOR} && NamesOf(Entries(s)) == map[]
    requires forall f | f in s.files :: f == 0
    ensures ModelOf(s) == Model(map[], map[], map[])
  {
    hide NamesOf, Live;
    ModelledFacts(s);
    assert FileSectors(s) == {};
    assert ContentsOf(s) == map[];
    assert HandlesIn(s) == map[];
  }

  lemma NothingSpare(d: Disk, x: nat, y: nat)
    requires Plan(d, x, y)
    ensures var d' := Formatted(d, x, y); DiskOk(d') && |d'| == |d| && forall z: nat | z < |d| && Map2(d, x, y)[z] :: Owns(d', FREE_MAP_SECTOR, z) || Owns(d', ROOT_DIR_SECTOR, z)
  {
    hide Formatted;
    FormattedDisk(d, x, y);
  }

  /** First fit finds room for the free map and then for the root directory. */
  ghost predicate CanFormat(d: Disk) {
    exists x: nat, y: nat :: FirstFree(InitialMap(|d|), x, SectorsFor(MapBytes(|d|))) && FirstFree(Map1(d, x), y, 1)
  }

  lemma PlanIs(d: Disk, x: nat, y: Option<nat>)
    requires DeviceOk(d) && x < B32 && FirstFree(InitialMap(|d|), x, SectorsFor(MapBytes(|d|)))
    requires y.Some? ==> FirstFree(Map1(d, x), y.value, 1)
    requires y.None? ==> forall z: nat :: !AllFree(Map1(d, x), z, 1)
    ensures y.Some? <==> CanFormat(d)
    ensures y.Some? ==> Plan(d, x, y.value)
  {
    hide SectorsFor, MapBytes;
    if CanFormat(d) {
      var x0: nat, y0: nat :| FirstFree(InitialMap(|d|), x0, SectorsFor(MapBytes(|d|))) && FirstFree(Map1(d, x0), y0, 1);
      assert x0 == x;
    }
  }

  lemma MapIsOnDisk(s: Fs)
    requires StorageOk(s) && s.saved
    ensures DiskOk(s.disk) && InodeOk(s.disk, FREE_MAP_SECTOR)
    ensures 512 * Desc(s.disk, FREE_MAP_SECTOR).start + Desc(s.disk, FREE_MAP_SECTOR).length <= 512 * |s.disk|
    ensures FileBytes(s.disk, Desc(s.disk, FREE_MAP_SECTOR).start, Desc(s.disk, FREE_MAP_SECTOR).length) == EncodeMap(s.freeMap)
  {
  }

  lemma MapNotEmpty(s: Fs)
    requires StorageOk(s)
    ensures MapBytes(|s.freeMap|) > 0
  {
  }

  lemma MapFits(d: Disk, x: nat)
    requires DeviceOk(d) && x < B32 && FirstFree(InitialMap(|d|), x, SectorsFor(MapBytes(|d|)))
    ensures DecodeInode(Disk1(d, x)[FREE_MAP_SECTOR]) == MapInode(d, x) && x + SectorsFor(MapBytes(|d|)) <= |d|
    ensures |EncodeMap(Map1(d, x))| == MapBytes(|d|) && MapInode(d, x).length == MapBytes(|d|)
  {
    hide SectorsFor, MapBytes, EncodeMap;
    Create1(d, x);
  }

  lemma RootFits(d: Disk, x: nat, y: nat)
    requires Plan(d, x, y)
    ensures SectorsFor(ROOT_BYTES) == 1 && y + 1 <= |d| && y != ROOT_DIR_SECTOR
    ensures |EncodeMap(Map2(d, x, y))| == MapBytes(|d|)
  {
    assert SectorsFor(ROOT_BYTES) == 1;
    hide SectorsFor, MapBytes, EncodeMap;
    MapAvoidsRoot(d, Disk1(d, x), x) by { Create1(d, x); }
  }
}
