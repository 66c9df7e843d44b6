/** What one operation of the file system does to the state, and why it keeps the invariant. */
module FsEffects {
  import opened Machine
  import opened FsLayout
  import opened FsDevice
  import opened FsInvariant
  import opened FsLemmas
  import opened Bitmaps
  import opened FsTables

  // ----- facts the operations need -----

  lemma InodeFits(d: Disk, sec: nat)
    requires DiskOk(d) && InodeOk(d, sec)
    ensures 512 * Desc(d, sec).start + Desc(d, sec).length <= 512 * |d|
  {
  }

  /** The free-map file is open, covers the map, and can be written. */
  lemma FreeMapFile(s: Fs, p: multiset<nat>)
    requires Ok(s, p)
    ensures 0 in s.files && s.files[0].inode in s.inodes
    ensures var node := s.inodes[s.files[0].inode];
            && node.sector == FREE_MAP_SECTOR && node.denyCnt == 0
            && DiskOk(s.disk) && InodeOk(s.disk, FREE_MAP_SECTOR) && node.data == Desc(s.disk, FREE_MAP_SECTOR)
            && node.data.length == MapBytes(|s.freeMap|)
  {
    var id := s.files[0].inode;
    assert CountOk(s.files, id, s.inodes[id], p);
    assert DenyersOf(s.files, id) == {};
  }

  /** Nothing that belongs to a live file changed, and the tables are as before. */
  ghost predicate Undisturbed(s: Fs, s': Fs) {
    && StorageOk(s) && StorageOk(s') && s'.inodes == s.inodes && s'.openList == s.openList && s'.files == s.files
    && Live(s') == Live(s) && Entries(s') == Entries(s) && SameFiles(s, s', Live(s))
  }

  /** Sectors that are marked but belong to no live file. */
  ghost predicate Unowned(s: Fs, x: nat, cnt: nat) {
    && StorageOk(s) && x + cnt <= |s.disk|
    && forall i: nat | x <= i < x + cnt :: s.freeMap[i] && forall a | a in Live(s) :: !Owns(s.disk, a, i)
  }

  /** Whether a bitmap_write to the file of a map of n sectors gets through: only a last partial
      sector needs memory. */
  predicate SavesMap(n: nat, bounceOk: bool) { bounceOk || MapBytes(n) % 512 == 0 }

  /** What bitmap_write manages to write of the map. */
  function MapPart(m: seq<bool>, bounceOk: bool): (data: Bytes)
    ensures |data| <= MapBytes(|m|) && (SavesMap(|m|, bounceOk) ==> data == EncodeMap(m))
  {
    var n := MapBytes(|m|); EncodeMap(m)[..Moved(n, n, 0, bounceOk)]
  }

  lemma AllSaved(n: nat, bounceOk: bool)
    ensures Moved(MapBytes(n), MapBytes(n), 0, bounceOk) == MapBytes(n) <==> SavesMap(n, bounceOk)
  {
  }

  lemma MarkTakenBack(m: seq<bool>, x: nat, cnt: nat)
    requires AllFree(m, x, cnt)
    ensures SetRange(SetRange(m, x, cnt, true), x, cnt, false) == m
  {
  }

  /** Marking free sectors; when the map cannot be saved, the marks are taken back. */
  lemma MarkKeeps(s: Fs, x: nat, cnt: nat, bounceOk: bool)
    requires StorageOk(s) && AllFree(s.freeMap, x, cnt)
    ensures var m := SetRange(s.freeMap, x, cnt, true);
            if SavesMap(|m|, bounceOk) then var s' := WithMap(s, m, MapPart(m, bounceOk), true); Undisturbed(s, s') && Unowned(s', x, cnt)
            else Undisturbed(s, WithMap(s, s.freeMap, MapPart(m, bounceOk), false))
  {
    var m := SetRange(s.freeMap, x, cnt, true);
    var data := MapPart(m, bounceOk);
    MapChangeKeeps(s, s.freeMap, data, false);
    if SavesMap(|m|, bounceOk) {
      MapChangeKeeps(s, m, data, true);
      MarkedIsUnowned(s, WithMap(s, m, data, true), x, cnt);
    }
  }

  lemma MarkedIsUnowned(s: Fs, s': Fs, x: nat, cnt: nat)
    requires Undisturbed(s, s') && AllFree(s.freeMap, x, cnt) && s'.freeMap == SetRange(s.freeMap, x, cnt, true)
    ensures Unowned(s', x, cnt)
  {
    forall i: nat, a | x <= i < x + cnt && a in Live(s) ensures !Owns(s'.disk, a, i) {
      assert Owns(s'.disk, a, i) == Owns(s.disk, a, i) by { assert InodeOk(s.disk, a) && s'.disk[a] == s.disk[a]; }
    }
  }

  lemma ClearKeeps(s: Fs, x: nat, cnt: nat, bounceOk: bool)
    requires Unowned(s, x, cnt)
    ensures var m := SetRange(s.freeMap, x, cnt, false); Undisturbed(s, WithMap(s, m, MapPart(m, bounceOk), SavesMap(|m|, bounceOk)))
  {
    var m := SetRange(s.freeMap, x, cnt, false);
    MapChangeKeeps(s, m, MapPart(m, bounceOk), SavesMap(|m|, bounceOk));
  }

  /** Unowned sectors stay so while other sectors are allocated. */
  lemma StillUnowned(s: Fs, s': Fs, x: nat, cnt: nat)
    requires Undisturbed(s, s') && Unowned(s, x, cnt)
    requires forall i: nat | x <= i < x + cnt :: s'.freeMap[i]
    ensures Unowned(s', x, cnt)
  {
    forall i: nat, a | x <= i < x + cnt && a in Live(s) ensures !Owns(s'.disk, a, i) {
      assert InodeOk(s.disk, a) && s'.disk[a] == s.disk[a];
      assert !Owns(s.disk, a, i);
    }
  }

  lemma UndisturbedTables(s: Fs, s': Fs, p: multiset<nat>)
    requires Undisturbed(s, s') && Ok(s, p)
    ensures Ok(s', p)
  {
  }

  lemma UndisturbedTrans(a: Fs, b: Fs, c: Fs)
    requires Undisturbed(a, b) && Undisturbed(b, c)
    ensures Undisturbed(a, c)
  {
    forall x | x in Live(a) && InodeOk(a.disk, x) ensures c.disk[x] == a.disk[x] { assert b.disk[x] == a.disk[x]; }
  }

  /** After inode_create: sector sec holds an inode of the given length, marked but in no
      live file, whose contents are all zero. */
  ghost predicate IsNewFile(s: Fs, sec: nat, length: nat) {
    StorageOk(s) && Loose(s, sec) && Content(s.disk, sec) == Zeros(length)
  }

  lemma NewFile(s: Fs, sec: nat, i: InodeDisk)
    requires i.length >= 0 && Unowned(s, sec, 1) && Unowned(s, i.start, SectorsFor(i.length))
    requires !(i.start <= sec < i.start + SectorsFor(i.length))
    ensures var s' := s.(disk := NewInode(s.disk, sec, i)); Undisturbed(s, s') && IsNewFile(s', sec, i.length)
  {
    var d := NewInode(s.disk, sec, i);
    forall a, x: nat | a in Live(s) && x < |d| && Owns(s.disk, a, x) ensures d[x] == s.disk[x] { }
    LooseWriteKeeps(s, d);
    NewInodeIsEmptyFile(s.disk, sec, i);
    NewFileIsLoose(s, sec, i);
  }

  lemma NewFileIsLoose(s: Fs, sec: nat, i: InodeDisk)
    requires i.length >= 0 && Unowned(s, sec, 1) && Unowned(s, i.start, SectorsFor(i.length))
    requires !(i.start <= sec < i.start + SectorsFor(i.length))
    requires var s' := s.(disk := NewInode(s.disk, sec, i)); Undisturbed(s, s') && InodeOk(s'.disk, sec) && Desc(s'.disk, sec) == i
    ensures Loose(s.(disk := NewInode(s.disk, sec, i)), sec)
  {
    var s' := s.(disk := NewInode(s.disk, sec, i));
    forall x: nat, a | x < |s.disk| && Owns(s'.disk, sec, x) && a in Live(s') ensures !Owns(s'.disk, a, x) {
      assert InodeOk(s.disk, a) && s'.disk[a] == s.disk[a];
      assert !Owns(s.disk, a, x);
    }
  }

  /** Same names, same live files, same contents, same open files. */
  ghost predicate Quiet(s: Fs, s': Fs) {
    && StorageOk(s) && StorageOk(s') && s'.files == s.files
    && Live(s') == Live(s) && Entries(s') == Entries(s) && SameFiles(s, s', Live(s))
  }

  lemma SelfQuiet(s: Fs)
    requires StorageOk(s)
    ensures Quiet(s, s)
  {
  }

  lemma OpenedSame(s: Fs, s': Fs)
    requires TablesOnly(s, s')
    ensures Quiet(s, s') && s'.disk == s.disk && s'.freeMap == s.freeMap && StorageOk(s) && StorageOk(s')
    ensures DiskOk(s.disk) && InodeOk(s.disk, ROOT_DIR_SECTOR) && Entries(s') == Entries(s) && Live(s') == Live(s)
  {
  }

  lemma QuietTrans(a: Fs, b: Fs, c: Fs)
    requires Quiet(a, b) && Quiet(b, c)
    ensures Quiet(a, c)
  {
    forall x | x in Live(a) && InodeOk(a.disk, x) ensures c.disk[x] == a.disk[x] { assert b.disk[x] == a.disk[x]; }
  }

  lemma EntryIsLive(s: Fs, j: nat)
    requires StorageOk(s) && j < DIR_ENTRIES && InUse(Entries(s), j)
    ensures LiveIn(s, Entries(s)[j].sector) && NameTaken(s, CString(Entries(s)[j].name))
    ensures NamesOf(Entries(s))[CString(Entries(s)[j].name)] == Entries(s)[j].sector
    ensures Entries(s)[j].sector !in {FREE_MAP_SECTOR, ROOT_DIR_SECTOR}
  {
    EntryIsNamed(Entries(s), j);
    EntryIsValid(Entries(s), j);
  }

  ghost predicate InSlot(s: Fs, j: nat, e: Entry, name: Name) {
    && SystemFilesOk(s) && |Entries(s)| == DIR_ENTRIES && j < DIR_ENTRIES && Entries(s)[j] == e
    && InUse(Entries(s), j) && CString(e.name) == name && EntryOk(e)
  }

  lemma SlotFacts(s: Fs, j: nat, e: Entry, name: Name)
    requires InSlot(s, j, e, name)
    ensures DiskOk(s.disk) && InodeOk(s.disk, ROOT_DIR_SECTOR) && j < DIR_ENTRIES && EntryOk(e)
    ensures Entries(s)[j] == e && InUse(Entries(s), j) && CString(e.name) == name
  {
  }

  ghost predicate Erased(s: Fs, s': Fs, j: nat, id: nat) {
    StorageOk(s) && j < DIR_ENTRIES && id in s.inodes && s' == WithoutEntry(s, j, id)
  }

  lemma EraseKeeps(s1: Fs, s2: Fs, j: nat, id: nat, p: multiset<nat>)
    requires Ok(s1, p) && j < DIR_ENTRIES && InUse(Entries(s1), j) && id in s1.inodes && Entries(s1)[j].sector == s1.inodes[id].sector
    requires EntryWritten(s1, s2.(inodes := s1.inodes), j, Entries(s1)[j].(inUse := 0), true)
    requires s2.inodes == s1.inodes[id := s1.inodes[id].(removed := true)]
    ensures Ok(s2, p) && Erased(s1, s2, j, id)
  {
    hide StorageOk, TablesOk, Entries, SameFiles, NamesOf, CString;
    StorageFacts(s1);
    InodesAreUnique(s1, p);
    RemoveEntryKeeps(s1, j, id);
    CountsAre(s1, id, p);
    NodeTables(s1, id, s1.inodes[id].(removed := true), p, p);
    SameTables(WithNode(s1, id, s1.inodes[id].(removed := true)), s2, p);
  }

  /** The name is gone and nothing else about names, contents or open files changed. The file
      stays live exactly while someone has it open; otherwise exactly its sectors are freed. */
  ghost predicate NameRemoved(s: Fs, s': Fs, name: Name) {
    && StorageOk(s) && StorageOk(s') && s'.files == s.files && name in NamesOf(Entries(s))
    && NamesOf(Entries(s')) == NamesOf(Entries(s)) - {name}
    && var sec := NamesOf(Entries(s))[name];
       && sec < |s.disk| && sec in Live(s) && SameFiles(s, s', Live(s') - {ROOT_DIR_SECTOR}) && SameDescs(s, s', Live(s'))
       && Live(s') == (if sec in OpenSectors(s.inodes) then Live(s) else Live(s) - {sec})
       && |s'.freeMap| == |s.freeMap|
       && forall x: nat | x < |s.disk| :: s'.freeMap[x] == (s.freeMap[x] && (sec in OpenSectors(s.inodes) || !Owns(s.disk, sec, x)))
  }

  /** The entry is erased and the inode is marked, but nothing is freed yet. */
  ghost predicate NameUnbound(s: Fs, s': Fs, name: Name) {
    && StorageOk(s) && StorageOk(s') && s'.files == s.files && s'.freeMap == s.freeMap && Live(s') == Live(s)
    && name in NamesOf(Entries(s)) && NamesOf(Entries(s')) == NamesOf(Entries(s)) - {name}
    && NamesOf(Entries(s))[name] in Live(s) && NamesOf(Entries(s))[name] != ROOT_DIR_SECTOR
    && SameFiles(s, s', Live(s) - {ROOT_DIR_SECTOR}) && SameDescs(s, s', Live(s))
  }

  lemma ErasedUnbinds(s: Fs, s1: Fs, s2: Fs, name: Name, j: nat, id: nat)
    requires TablesOnly(s, s1) && Erased(s1, s2, j, id) && j < DIR_ENTRIES && InUse(Entries(s), j)
    requires CString(Entries(s)[j].name) == name && Entries(s)[j].sector == s1.inodes[id].sector
    requires OneInodePerSector(s1.inodes)
    ensures NameUnbound(s, s2, name) && NamesOf(Entries(s))[name] == s1.inodes[id].sector
  {
    hide StorageOk, Live, NamesOf, CString, Entries, SameFiles;
    OpenedSame(s, s1);
    RemoveEntryKeeps(s1, j, id);
    EntryIsLive(s, j);
    LiveFacts(s, s1.inodes[id].sector);
    SameFilesFrom(s, s1, s2, Live(s) - {ROOT_DIR_SECTOR});
  }

  lemma LiveFacts(s: Fs, sec: nat)
    requires LiveIn(s, sec)
    ensures DiskOk(s.disk) && InodeOk(s.disk, ROOT_DIR_SECTOR) && sec in Live(s) && InodeOk(s.disk, sec) && |s.freeMap| == |s.disk|
  {
  }

  lemma SameFilesFrom(s: Fs, s1: Fs, s2: Fs, live: set<nat>)
    requires DiskOk(s1.disk) && DiskOk(s2.disk) && SameFiles(s1, s2, live) && s1.disk == s.disk
    ensures SameFiles(s, s2, live)
  {
  }

  lemma SameOwner(s: Fs, s2: Fs, live: set<nat>, sec: nat)
    requires DiskOk(s.disk) && DiskOk(s2.disk) && SameFiles(s, s2, live) && sec in live && InodeOk(s.disk, sec)
    ensures |s2.disk| == |s.disk| && forall x: nat | x < |s.disk| :: Owns(s2.disk, sec, x) == Owns(s.disk, sec, x)
  {
  }

  lemma SameFilesTrans(a: Fs, b: Fs, c: Fs, live: set<nat>, fewer: set<nat>)
    requires DiskOk(a.disk) && DiskOk(b.disk) && DiskOk(c.disk)
    requires SameFiles(a, b, live) && SameFiles(b, c, fewer)
    ensures SameFiles(a, c, live * fewer)
  {
    forall x | x in live * fewer && InodeOk(a.disk, x) ensures c.disk[x] == a.disk[x] { assert b.disk[x] == a.disk[x]; }
  }

  /** The last close frees exactly the sectors of the unbound file. */
  lemma RemovalDone(s: Fs, s2: Fs, s3: Fs, name: Name, node: Inode)
    requires NameUnbound(s, s2, name) && ClosedInode(s2, s3, node) && s3.files == s2.files && node.removed
    requires NamesOf(Entries(s))[name] == node.sector
    requires node.openCnt == 1 <==> node.sector !in OpenSectors(s.inodes)
    ensures NameRemoved(s, s3, name)
  {
    hide StorageOk, Live, NamesOf, Entries, SameFiles, Owns, OpenSectors;
    UnboundFacts(s, s2, name);
    ClosedFacts(s2, s3, node);
    SameOwner(s, s2, Live(s) - {ROOT_DIR_SECTOR}, node.sector);
    SameFilesTrans(s, s2, s3, Live(s) - {ROOT_DIR_SECTOR}, Live(s3));
    SameDescsTrans(s, s2, s3, Live(s), Live(s3));
    assert Live(s) * Live(s3) == Live(s3);
    assert (Live(s) - {ROOT_DIR_SECTOR}) * Live(s3) == Live(s3) - {ROOT_DIR_SECTOR};
  }

  lemma UnboundFacts(s: Fs, s2: Fs, name: Name)
    requires NameUnbound(s, s2, name)
    ensures DiskOk(s.disk) && InodeOk(s.disk, ROOT_DIR_SECTOR) && DiskOk(s2.disk) && InodeOk(s2.disk, ROOT_DIR_SECTOR)
    ensures SystemFilesOk(s) && SystemFilesOk(s2)
    ensures InodeOk(s.disk, NamesOf(Entries(s))[name]) && |s.freeMap| == |s.disk|
  {
  }

  lemma ClosedFacts(s: Fs, s': Fs, node: Inode)
    requires ClosedInode(s, s', node)
    ensures DiskOk(s.disk) && InodeOk(s.disk, ROOT_DIR_SECTOR) && DiskOk(s'.disk) && InodeOk(s'.disk, ROOT_DIR_SECTOR)
    ensures SystemFilesOk(s) && SystemFilesOk(s') && SameFiles(s, s', Live(s')) && SameDescs(s, s', Live(s'))
  {
  }

  lemma RootFile(s: Fs, root: nat, p: multiset<nat>)
    requires Ok(s, p) && root in s.inodes && s.inodes[root].sector == ROOT_DIR_SECTOR
    ensures s.inodes[root].denyCnt == 0 && DiskOk(s.disk) && InodeOk(s.disk, ROOT_DIR_SECTOR)
    ensures s.inodes[root].data == Desc(s.disk, ROOT_DIR_SECTOR) && s.inodes[root].data.length == 20 * DIR_ENTRIES
    ensures |Entries(s)| == DIR_ENTRIES && DirOk(Entries(s)) && SystemFilesOk(s)
  {
    assert CountOk(s.files, root, s.inodes[root], p);
    assert DenyersOf(s.files, root) == {};
  }

  lemma EntryIsSlice(s: Fs, j: nat, b: Bytes)
    requires DiskOk(s.disk) && InodeOk(s.disk, ROOT_DIR_SECTOR) && |Entries(s)| == DIR_ENTRIES
    requires 512 * Desc(s.disk, ROOT_DIR_SECTOR).start + Desc(s.disk, ROOT_DIR_SECTOR).length <= 512 * |s.disk|
    requires |b| == 20 && Desc(s.disk, ROOT_DIR_SECTOR).length == 20 * DIR_ENTRIES && j < DIR_ENTRIES
    requires b == FileBytes(s.disk, Desc(s.disk, ROOT_DIR_SECTOR).start, 20 * DIR_ENTRIES)[20 * j..20 * j + 20]
    ensures DecodeEntry(b) == Entries(s)[j]
  {
  }

  ghost predicate EntryWritten(s: Fs, s': Fs, j: nat, e: Entry, ok: bool) {
    && DiskOk(s.disk) && InodeOk(s.disk, ROOT_DIR_SECTOR) && EntryOk(e)
    && s' == if ok then WithEntry(s, j, e) else s
  }

  ghost predicate NameTaken(s: Fs, name: Name) { SystemFilesOk(s) && name in NamesOf(Entries(s)) }

  ghost predicate DirFull(s: Fs) { SystemFilesOk(s) && forall j: nat | j < DIR_ENTRIES :: InUse(Entries(s), j) }

  /** For which slots a bounce buffer can be had when lookup reads them and when dir_add looks
      for a free one, and whether one can be had for the write of the entry. */
  datatype Bounce = Bounce(look: nat -> bool, slot: nat -> bool, write: bool)

  /** lookup gets as far as slot j, and finds the name there. */
  ghost predicate Finds(es: seq<Entry>, name: Name, look: nat -> bool, j: nat) {
    InUse(es, j) && CString(es[j].name) == name && forall k: nat | k <= j :: look(k)
  }

  /** The name is in the directory, in front of any slot that cannot be read. */
  ghost predicate Visible(es: seq<Entry>, name: Name, look: nat -> bool) { exists j: nat :: Finds(es, name, look, j) }

  /** Where dir_add puts a new entry: the first slot that is free or cannot be read, or the end
      of the directory. */
  function StopsAt(es: seq<Entry>, slot: nat -> bool, j: nat): (k: nat)
    requires j <= |es|
    ensures j <= k <= |es| && (k < |es| ==> !slot(k) || !InUse(es, k)) && forall i: nat | j <= i < k :: slot(i) && InUse(es, i)
    decreases |es| - j
  {
    if j == |es| || !slot(j) || !InUse(es, j) then j else StopsAt(es, slot, j + 1)
  }

  /** dir_add writes an entry. */
  ghost predicate DirAccepts(s: Fs, name: Name, b: Bounce) {
    && SystemFilesOk(s) && 1 <= |name| <= NAME_MAX && !Visible(Entries(s), name, b.look)
    && StopsAt(Entries(s), b.slot, 0) < |Entries(s)| && b.write
  }

  /** The entry doubles a name that lookup could not see, or replaces one that the search for a
      free slot could not read. */
  ghost predicate DirHarms(s: Fs, name: Name, b: Bounce) {
    DirAccepts(s, name, b) && (NameTaken(s, name) || InUse(Entries(s), StopsAt(Entries(s), b.slot, 0)))
  }

  /** Names are unique, and every name stands for the file that it stood for. */
  ghost predicate KeepsNames(es: seq<Entry>, es': seq<Entry>) {
    DirOk(es') && forall n | n in NamesOf(es) :: n in NamesOf(es') && NamesOf(es')[n] == NamesOf(es)[n]
  }

  lemma NotHarmed(s: Fs, name: Name, b: Bounce)
    requires DirAccepts(s, name, b) && !DirHarms(s, name, b)
    ensures name !in NamesOf(Entries(s)) && !InUse(Entries(s), StopsAt(Entries(s), b.slot, 0))
  {
  }

  lemma FoundAt(es: seq<Entry>, name: Name, look: nat -> bool, j: nat)
    requires j < |es| && look(j) && NotFoundBefore(es, name, look, j)
    ensures InUse(es, j) && CString(es[j].name) == name ==> Finds(es, name, look, j) && Visible(es, name, look)
    ensures !(InUse(es, j) && CString(es[j].name) == name) ==> NotFoundBefore(es, name, look, j + 1)
  {
    if InUse(es, j) && CString(es[j].name) == name { assert Finds(es, name, look, j); }
  }

  /** All slots in front of slot j can be read, and none has the name. */
  ghost predicate NotFoundBefore(es: seq<Entry>, name: Name, look: nat -> bool, j: nat) {
    forall k: nat | k < j :: look(k) && !(InUse(es, k) && CString(es[k].name) == name)
  }

  lemma NoneBefore(es: seq<Entry>, name: Name, look: nat -> bool)
    ensures NotFoundBefore(es, name, look, 0)
  {
  }

  lemma NotVisible(es: seq<Entry>, name: Name, look: nat -> bool, j: nat)
    requires NotFoundBefore(es, name, look, j) && (j >= |es| || !look(j))
    ensures !Visible(es, name, look)
  {
  }

  /** A new entry keeps the names exactly if its name is new and its slot was free. */
  lemma AddKeepsNames(es: seq<Entry>, j: nat, e: Entry)
    requires DirOk(es) && j < |es| && e.inUse != 0 && ValidEntry(e) && e.sector !in Named(es)
    ensures KeepsNames(es, es[j := e]) <==> CString(e.name) !in NamesOf(es) && !InUse(es, j)
  {
    var es', name := es[j := e], CString(e.name);
    if name !in NamesOf(es) && !InUse(es, j) {
      AddedNames(es, j, e);
    } else if InUse(es, j) {
      LostName(es, j, e);
    } else {
      DoubledName(es, j, e);
    }
  }

  lemma DoubledName(es: seq<Entry>, j: nat, e: Entry)
    requires j < |es| && e.inUse != 0 && CString(e.name) in NamesOf(es) && !InUse(es, j)
    ensures !DirOk(es[j := e])
  {
    var k := SlotOf(es, CString(e.name));
    assert InUse(es[j := e], j) && InUse(es[j := e], k) && k != j;
  }

  /** The name in a slot that is overwritten is lost, or stands for another file. */
  lemma LostName(es: seq<Entry>, j: nat, e: Entry)
    requires DirOk(es) && InUse(es, j) && e.inUse != 0 && e.sector !in Named(es)
    ensures !KeepsNames(es, es[j := e])
  {
    var es', n := es[j := e], CString(es[j].name);
    EntryIsNamed(es, j);
    if n in NamesOf(es') {
      var k := SlotOf(es', n);
      assert es[j].sector in Named(es);
    }
  }

  /** An entry was replaced by one of the name, and the directory no longer keeps the names
      it had. */
  ghost predicate Harmed(s: Fs, s': Fs, name: Name, b: Bounce) {
    && SystemFilesOk(s) && SystemFilesOk(s')
    && var j := StopsAt(Entries(s), b.slot, 0);
       && j < |Entries(s)| == |Entries(s')| && CString(Entries(s')[j].name) == name
       && Entries(s') == Entries(s)[j := Entries(s')[j]] && !KeepsNames(Entries(s), Entries(s'))
  }

  /** There is memory and room for the contents, and the free map can be saved. */
  ghost predicate HasExtent(m: seq<bool>, size: nat, memoryOk: bool, mapOk: bool) {
    memoryOk && SavesMap(|m|, mapOk) && exists x: nat :: AllFree(m, x, SectorsFor(size))
  }

  lemma HarmIs(s: Fs, s': Fs, b: Bounce, j: nat, e: Entry, name: Name, sec: nat, length: nat)
    requires IsNewFile(s, sec, length) && EntryWritten(s, s', j, e, true) && j < DIR_ENTRIES && SystemFilesOk(s)
    requires DirHarms(s, name, b) && j == StopsAt(Entries(s), b.slot, 0) && CString(e.name) == name && 1 <= |name| <= NAME_MAX
    requires e.sector == sec && e.inUse == 1 && sec != FREE_MAP_SECTOR && sec != ROOT_DIR_SECTOR
    ensures Harmed(s, s', name, b)
  {
    LooseIsNew(s, sec);
    hide Loose, Layout, DirOk, NamesOf, InodesOk, Visible;
    EntryWriteSystem(s, j, e);
    AddKeepsNames(Entries(s), j, e);
  }

  /** A name was bound to a new empty file; every other name and file is as before. */
  ghost predicate NameAdded(s: Fs, s': Fs, name: Name, sec: nat, length: nat) {
    && StorageOk(s) && StorageOk(s') && sec !in Live(s) && Live(s') == Live(s) + {sec}
    && 1 <= |name| <= NAME_MAX && name !in NamesOf(Entries(s))
    && NamesOf(Entries(s')) == NamesOf(Entries(s))[name := sec]
    && InodeOk(s'.disk, sec) && Content(s'.disk, sec) == Zeros(length) && |s.disk| == |s'.disk| && s'.disk[sec] == s.disk[sec]
    && SameFiles(s, s', Live(s) - {ROOT_DIR_SECTOR}) && SameDescs(s, s', Live(s)) && s'.freeMap == s.freeMap
    && s'.inodes == s.inodes && s'.openList == s.openList && s'.files == s.files
  }

  lemma NewFileSector(s: Fs, sec: nat, length: nat)
    requires IsNewFile(s, sec, length)
    ensures sec < B32 && sec !in Live(s) && SystemFilesOk(s) && |Entries(s)| == DIR_ENTRIES
  {
    LooseIsNew(s, sec);
  }

  lemma Named1(s: Fs, s': Fs, j: nat, e: Entry, name: Name, sec: nat, length: nat, p: multiset<nat>)
    requires Ok(s, p) && IsNewFile(s, sec, length) && EntryWritten(s, s', j, e, true) && j < DIR_ENTRIES
    requires !InUse(Entries(s), j) && CString(e.name) == name && 1 <= |name| <= NAME_MAX && name !in NamesOf(Entries(s))
    requires e.sector == sec && e.inUse == 1 && sec != FREE_MAP_SECTOR && sec != ROOT_DIR_SECTOR
    ensures Ok(s', p) && NameAdded(s, s', name, sec, length)
  {
    hide Layout, DirOk, TablesOk;
    LooseIsNew(s, sec);
    AddEntryKeeps(s, j, e);
    SameTables(s, s', p);
  }

  lemma SameTables(s: Fs, s': Fs, p: multiset<nat>)
    requires TablesOk(s, p) && s'.inodes == s.inodes && s'.openList == s.openList && s'.files == s.files
    ensures TablesOk(s', p)
  {
  }

  lemma NotWritten(s: Fs, s': Fs, j: nat, e: Entry)
    requires EntryWritten(s, s', j, e, false)
    ensures s' == s
  {
  }

  ghost predicate LiveIn(s: Fs, sec: nat) { StorageOk(s) && sec in Live(s) }

  /** Only the tables of open inodes changed. */
  ghost predicate TablesOnly(s: Fs, s': Fs) {
    && StorageOk(s) && StorageOk(s') && s'.disk == s.disk && s'.freeMap == s.freeMap && s'.files == s.files
    && Live(s') == Live(s) && Entries(s') == Entries(s)
  }

  /** What inode_close does to the storage: nothing, unless it was the last close of a
      removed inode; then that inode is no longer live and exactly its sectors are free. */
  ghost predicate ClosedInode(s: Fs, s': Fs, node: Inode) {
    && StorageOk(s) && StorageOk(s') && Entries(s') == Entries(s) && node.sector < |s.disk| && DiskOk(s.disk)
    && if node.openCnt == 1 && node.removed then
         && Live(s') == Live(s) - {node.sector} && SameFiles(s, s', Live(s'))
         && |s'.freeMap| == |s.freeMap|
         && forall x: nat | x < |s.disk| :: s'.freeMap[x] == (s.freeMap[x] && !Owns(s.disk, node.sector, x))
       else s'.disk == s.disk && s'.freeMap == s.freeMap && Live(s') == Live(s)
  }

  lemma ListFacts(s: Fs, p: multiset<nat>)
    requires Ok(s, p)
    ensures forall j | 0 <= j < |s.openList| :: s.openList[j] in s.inodes
    ensures forall i | i in s.inodes :: i in s.openList
    ensures DiskOk(s.disk) && forall x | x in Live(s) :: x < |s.disk|
  {
    forall j | 0 <= j < |s.openList| ensures s.openList[j] in s.inodes { assert s.openList[j] in s.openList; }
  }

  lemma NotInList(inodes: map<nat, Inode>, list: seq<nat>, sec: nat)
    requires forall i | i in inodes :: i in list
    requires forall j | 0 <= j < |list| :: list[j] in inodes && inodes[list[j]].sector != sec
    ensures sec !in OpenSectors(inodes)
  {
  }

  /** Giving up a reference that frees nothing. */
  lemma LetGoKeeps(s: Fs, id: nat, p: multiset<nat>)
    requires Ok(s, p) && id in p && id in s.inodes && (s.inodes[id].openCnt != 1 || !s.inodes[id].removed)
    ensures Ok(LetGo(s, id), p - multiset{id}) && Quiet(s, LetGo(s, id))
  {
    hide StorageOk, TablesOk;
    CountsAre(s, id, p);
    if s.inodes[id].openCnt == 1 { CloseLastKeeps(s, id, p); } else { CloseOneKeeps(s, id, p); }
    SameDiskFiles(s, LetGo(s, id));
  }

  lemma SameDiskFiles(s: Fs, s': Fs)
    requires StorageOk(s) && s'.disk == s.disk
    ensures SameFiles(s, s', Live(s))
  {
  }

  lemma ClosedKeeping(s: Fs, s': Fs, node: Inode)
    requires StorageOk(s) && StorageOk(s') && s'.disk == s.disk && s'.freeMap == s.freeMap
    requires Live(s') == Live(s) && Entries(s') == Entries(s) && node.sector in Live(s)
    requires node.openCnt != 1 || !node.removed
    ensures ClosedInode(s, s', node)
  {
  }

  /** When a removed inode leaves the table, its sectors belong to no live file. */
  lemma FreedIsUnowned(s: Fs, s1: Fs, id: nat)
    requires StorageOk(s) && StorageOk(s1) && id in s.inodes && s1.disk == s.disk && s1.freeMap == s.freeMap
    requires Live(s1) == Live(s) - {s.inodes[id].sector}
    ensures var node := s.inodes[id];
            && node.data.length >= 0 && Unowned(s1, node.sector, 1)
            && Unowned(s1, node.data.start, SectorsFor(node.data.length))
            && !(node.data.start <= node.sector < node.data.start + SectorsFor(node.data.length))
  {
    OpenInodeFacts(s, id);
    var sec := s.inodes[id].sector;
    assert InodeOk(s.disk, sec);
    forall x: nat | x < |s.disk| && Owns(s.disk, sec, x) ensures s1.freeMap[x] && forall a | a in Live(s1) :: !Owns(s1.disk, a, x) {
    }
  }

  lemma StillFreed(s1: Fs, s2: Fs, node: Inode)
    requires node.data.length >= 0 && Unowned(s1, node.data.start, SectorsFor(node.data.length))
    requires !(node.data.start <= node.sector < node.data.start + SectorsFor(node.data.length))
    requires Undisturbed(s1, s2) && s2.freeMap == SetRange(s1.freeMap, node.sector, 1, false)
    ensures Unowned(s2, node.data.start, SectorsFor(node.data.length))
  {
    UnownedIsOnDisk(s1, node.data.start, SectorsFor(node.data.length));
    hide Undisturbed, Unowned;
    StillUnowned(s1, s2, node.data.start, SectorsFor(node.data.length));
  }

  lemma ClosedFreeing(s: Fs, s1: Fs, s2: Fs, s3: Fs, id: nat)
    requires StorageOk(s) && StorageOk(s1) && id in s.inodes && s1.disk == s.disk && s1.freeMap == s.freeMap
    requires Entries(s1) == Entries(s) && s.inodes[id].openCnt == 1 && s.inodes[id].removed
    requires Live(s1) == Live(s) - {s.inodes[id].sector} && s.inodes[id].data.length >= 0
    requires Undisturbed(s1, s2) && s2.freeMap == SetRange(s1.freeMap, s.inodes[id].sector, 1, false)
    requires Undisturbed(s2, s3)
    requires s3.freeMap == SetRange(s2.freeMap, s.inodes[id].data.start, SectorsFor(s.inodes[id].data.length), false)
    ensures ClosedInode(s, s3, s.inodes[id])
  {
    OpenInodeFacts(s, id);
    UndisturbedTrans(s1, s2, s3);
    assert SameFiles(s, s3, Live(s3));
  }

  /** The data sectors of the inode in sec were free before and are marked now. */
  ghost predicate TookExtent(s: Fs, s': Fs, sec: nat) {
    && DiskOk(s'.disk) && InodeOk(s'.disk, sec)
    && var i := Desc(s'.disk, sec);
       AllFree(s.freeMap, i.start, SectorsFor(i.length)) && s'.freeMap == SetRange(s.freeMap, i.start, SectorsFor(i.length), true)
  }

  lemma SelfIsUndisturbed(s: Fs, sec: nat)
    requires Unowned(s, sec, 1)
    ensures Undisturbed(s, s) && StorageOk(s) && DiskOk(s.disk) && sec < |s.disk| <= B31
    ensures |s.freeMap| == |s.disk| && s.freeMap[sec]
  {
  }

  /** Sectors taken from the free map do not include one that was marked before. */
  lemma AllocatedElsewhere(s: Fs, s1: Fs, sec: nat, x: nat, cnt: nat)
    requires Undisturbed(s, s1) && Unowned(s, sec, 1) && AllFree(s.freeMap, x, cnt) && Unowned(s1, x, cnt)
    requires s1.freeMap == SetRange(s.freeMap, x, cnt, true)
    ensures Unowned(s1, sec, 1) && !(x <= sec < x + cnt) && x + cnt <= |s1.disk| <= B31 && sec < |s1.disk| && DiskOk(s1.disk)
  {
    SelfIsUndisturbed(s, sec);
    UnownedIsOnDisk(s1, x, cnt);
    hide Undisturbed, StorageOk, Unowned;
    StillUnowned(s, s1, sec, 1);
    UnownedIsOnDisk(s1, sec, 1);
  }

  lemma UnownedIsOnDisk(s: Fs, x: nat, cnt: nat)
    requires Unowned(s, x, cnt)
    ensures DiskOk(s.disk) && x + cnt <= |s.disk| <= B31 && |s.freeMap| == |s.disk|
    ensures forall i: nat | x <= i < x + cnt :: s.freeMap[i]
  {
  }

  lemma NewFileAfter(s: Fs, s1: Fs, s2: Fs, sec: nat, i: InodeDisk, p: multiset<nat>)
    requires Undisturbed(s, s1) && i.length >= 0 && AllFree(s.freeMap, i.start, SectorsFor(i.length)) && Ok(s1, p)
    requires s1.freeMap == SetRange(s.freeMap, i.start, SectorsFor(i.length), true)
    requires DiskOk(s1.disk) && s2 == s1.(disk := NewInode(s1.disk, sec, i)) && Undisturbed(s1, s2) && IsNewFile(s2, sec, i.length)
    requires sec < |s1.disk|
    ensures Undisturbed(s, s2) && Ok(s2, p) && TookExtent(s, s2, sec)
  {
    hide StorageOk, TablesOk, Undisturbed;
    UndisturbedTrans(s, s1, s2);
    UndisturbedTables(s1, s2, p);
    NewInodeDesc(s1.disk, sec, i);
    LooseIsOnDisk(s2, sec, i.length);
  }

  lemma NewInodeDesc(d: Disk, sec: nat, i: InodeDisk)
    requires DiskOk(d) && sec < |d| && i.length >= 0
    ensures Desc(NewInode(d, sec, i), sec) == i
  {
    InodeRoundTrip(i);
  }

  lemma LooseIsOnDisk(s: Fs, sec: nat, length: nat)
    requires IsNewFile(s, sec, length)
    ensures DiskOk(s.disk) && InodeOk(s.disk, sec)
  {
  }

  lemma SelfUndisturbed(s: Fs)
    requires StorageOk(s)
    ensures Undisturbed(s, s)
  {
  }
}
