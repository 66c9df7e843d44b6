/** The state of the file system and what always holds of it (Project 2/src/filesys). */
module FsInvariant {
  import opened Machine
  import opened FsLayout
  import opened FsDevice

  const FREE_MAP_SECTOR := 0
  const ROOT_DIR_SECTOR := 1
  const DIR_ENTRIES := 16

  /** An open inode: one per sector however often it is opened. */
  datatype Inode = Inode(sector: nat, openCnt: int, removed: bool, denyCnt: int, data: InodeDisk)

  /** An open file. Handle 0 is the file that holds the free map. */
  datatype File = File(inode: nat, pos: int, denyWrite: bool)

  /** saved says that the last write of the free map to its file was complete. */
  datatype Fs = Fs(disk: Disk, freeMap: seq<bool>, inodes: map<nat, Inode>, openList: seq<nat>, files: map<nat, File>, saved: bool)

  // ----- ownership of sectors -----

  function SectorsFor(length: int): nat
    requires length >= 0
  {
    (length + 511) / 512
  }

  function Desc(d: Disk, sec: nat): InodeDisk
    requires DiskOk(d) && sec < |d|
  {
    DecodeInode(d[sec])
  }

  predicate OwnsData(d: Disk, sec: nat, x: nat)
    requires DiskOk(d) && sec < |d|
  {
    Desc(d, sec).length >= 0 && Desc(d, sec).start <= x < Desc(d, sec).start + SectorsFor(Desc(d, sec).length)
  }

  predicate Owns(d: Disk, sec: nat, x: nat)
    requires DiskOk(d) && sec < |d|
  {
    x == sec || OwnsData(d, sec, x)
  }

  /** The inode in sector sec describes an extent on the device that does not contain sec. */
  predicate InodeOk(d: Disk, sec: nat)
    requires DiskOk(d)
  {
    && sec < |d| && Desc(d, sec).length >= 0
    && Desc(d, sec).start + SectorsFor(Desc(d, sec).length) <= |d|
    && !OwnsData(d, sec, sec)
  }

  function Content(d: Disk, sec: nat): Bytes
    requires DiskOk(d) && InodeOk(d, sec)
  {
    FileBytes(d, Desc(d, sec).start, Desc(d, sec).length)
  }

  /** Every sector of a live inode is marked in the free map, and no sector belongs to two
      live inodes. */
  ghost predicate Layout(d: Disk, m: seq<bool>, live: set<nat>) {
    && DiskOk(d) && |m| == |d|
    && (forall sec | sec in live :: InodeOk(d, sec))
    && (forall sec, x: nat | sec in live && x < |d| && Owns(d, sec, x) :: m[x])
    && (forall a, b, x: nat | a in live && b in live && x < |d| && Owns(d, a, x) && Owns(d, b, x) :: a == b)
  }

  // ----- directory -----

  function DirEntries(b: Bytes): seq<Entry> {
    seq(|b| / 20, j requires 0 <= j < |b| / 20 => DecodeEntry(b[20 * j..20 * j + 20]))
  }

  predicate InUse(es: seq<Entry>, j: nat) { j < |es| && es[j].inUse != 0 }

  /** Names in use are valid and unique, and no two entries share an inode. */
  ghost predicate DirOk(es: seq<Entry>) {
    && (forall j: nat | InUse(es, j) :: ValidEntry(es[j]))
    && (forall j: nat, k: nat | InUse(es, j) && InUse(es, k) && (CString(es[j].name) == CString(es[k].name) || es[j].sector == es[k].sector) :: j == k)
  }

  predicate ValidEntry(e: Entry) {
    e.sector != FREE_MAP_SECTOR && e.sector != ROOT_DIR_SECTOR && 1 <= |CString(e.name)| <= NAME_MAX
  }

  ghost function NameSet(es: seq<Entry>): set<Name> {
    set j: nat | j < |es| && InUse(es, j) :: CString(es[j].name)
  }

  ghost function SlotOf(es: seq<Entry>, n: Name): (j: nat)
    requires n in NameSet(es)
    ensures InUse(es, j) && CString(es[j].name) == n
  {
    var j: nat :| j < |es| && InUse(es, j) && CString(es[j].name) == n;
    j
  }

  /** The directory as a finite map from names to inode sectors. */
  ghost function NamesOf(es: seq<Entry>): map<Name, nat> {
    map n | n in NameSet(es) :: es[SlotOf(es, n)].sector
  }

  ghost function Named(es: seq<Entry>): set<nat> {
    set j: nat | j < |es| && InUse(es, j) :: es[j].sector as nat
  }

  // ----- open inodes and files -----

  ghost function OpenSectors(inodes: map<nat, Inode>): set<nat> {
    set i | i in inodes :: inodes[i].sector
  }

  ghost function HandlesOf(files: map<nat, File>, i: nat): set<nat> {
    set f | f in files && files[f].inode == i
  }

  ghost function DenyersOf(files: map<nat, File>, i: nat): set<nat> {
    set f | f in files && files[f].inode == i && files[f].denyWrite
  }

  /** The open-inode list names every in-memory inode once, and no sector has two. */
  ghost predicate OpenListOk(inodes: map<nat, Inode>, list: seq<nat>) {
    && (forall i :: i in list <==> i in inodes)
    && (forall p, q | 0 <= p < q < |list| :: list[p] != list[q])
    && (forall i, j | i in inodes && j in inodes && inodes[i].sector == inodes[j].sector :: i == j)
  }

  /** open_cnt counts the files on the inode and the references that the code in progress
      holds; deny_write_cnt counts the files that deny writing. */
  ghost predicate CountOk(files: map<nat, File>, i: nat, node: Inode, pending: multiset<nat>) {
    && node.openCnt == |HandlesOf(files, i)| + pending[i] && node.openCnt >= 1
    && node.denyCnt == |DenyersOf(files, i)|
  }

  ghost predicate CountsOk(s: Fs, pending: multiset<nat>) {
    && (forall i | i in s.inodes :: CountOk(s.files, i, s.inodes[i], pending))
    && (forall f | f in s.files :: s.files[f].inode in s.inodes)
    && (forall i | i in pending :: i in s.inodes)
  }

  ghost predicate FilesOk(s: Fs)
    requires forall f | f in s.files :: s.files[f].inode in s.inodes
  {
    && 0 in s.files && !s.files[0].denyWrite && s.inodes[s.files[0].inode].sector == FREE_MAP_SECTOR
    && forall f | f in s.files && f != 0 ::
         s.inodes[s.files[f].inode].sector !in {FREE_MAP_SECTOR, ROOT_DIR_SECTOR} && s.files[f].pos >= 0
  }

  // ----- the invariant -----

  ghost function Entries(s: Fs): seq<Entry>
    requires DiskOk(s.disk) && InodeOk(s.disk, ROOT_DIR_SECTOR)
  {
    DirEntries(Content(s.disk, ROOT_DIR_SECTOR))
  }

  ghost function Live(s: Fs): set<nat>
    requires DiskOk(s.disk) && InodeOk(s.disk, ROOT_DIR_SECTOR)
  {
    {FREE_MAP_SECTOR, ROOT_DIR_SECTOR} + Named(Entries(s)) + OpenSectors(s.inodes)
  }

  ghost predicate SystemFilesOk(s: Fs) {
    && DiskOk(s.disk) && |s.freeMap| == |s.disk| <= B31
    && InodeOk(s.disk, ROOT_DIR_SECTOR) && Desc(s.disk, ROOT_DIR_SECTOR).length == 20 * DIR_ENTRIES
    && InodeOk(s.disk, FREE_MAP_SECTOR) && Desc(s.disk, FREE_MAP_SECTOR).length == MapBytes(|s.freeMap|)
    && (s.saved ==> Content(s.disk, FREE_MAP_SECTOR) == EncodeMap(s.freeMap))
  }

  /** An open inode is a faithful copy, and it is marked removed exactly when it has no name
      any more. */
  ghost predicate Faithful(d: Disk, named: set<nat>, node: Inode)
    requires DiskOk(d)
  {
    && node.sector < |d| && node.data == Desc(d, node.sector)
    && (node.removed <==> node.sector !in named + {FREE_MAP_SECTOR, ROOT_DIR_SECTOR})
  }

  ghost predicate InodesOk(s: Fs)
    requires SystemFilesOk(s)
  {
    var named := Named(Entries(s));
    forall i | i in s.inodes :: Faithful(s.disk, named, s.inodes[i])
  }

  /** What holds of the disk, the free map and the in-memory copies of inodes. */
  ghost predicate StorageOk(s: Fs) {
    SystemFilesOk(s) && DirOk(Entries(s)) && Layout(s.disk, s.freeMap, Live(s)) && InodesOk(s)
  }

  /** What holds of the open-inode list, the reference counts and the open files. */
  ghost predicate TablesOk(s: Fs, pending: multiset<nat>) {
    OpenListOk(s.inodes, s.openList) && CountsOk(s, pending) && FilesOk(s)
  }

  ghost predicate Ok(s: Fs, pending: multiset<nat>) { StorageOk(s) && TablesOk(s, pending) }
}
