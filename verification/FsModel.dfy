/** What the file system is for: a finite map from names to byte arrays of fixed length, and
    open handles on them. */
module FsModel {
  import opened Machine
  import opened FsLayout
  import opened FsDevice
  import opened FsInvariant
  import opened FsLemmas
  import opened Bitmaps
  import opened FsTables
  import opened FsEffects

  datatype Handle = Handle(file: nat, pos: int, denyWrite: bool)

  /** names gives the file a name stands for; contents holds every file that has a name or
      is open. A file is identified by the sector of its inode. */
  datatype Model = Model(names: map<Name, nat>, contents: map<nat, Bytes>, handles: map<nat, Handle>)

  // ----- what each operation means -----

  function Create(m: Model, name: Name, file: nat, size: nat): Model {
    m.(names := m.names[name := file], contents := m.contents[file := Zeros(size)])
  }

  function Open(m: Model, file: nat, h: nat): Model {
    m.(handles := m.handles[h := Handle(file, 0, false)])
  }

  predicate IsOpen(m: Model, file: nat) { exists h :: h in m.handles && m.handles[h].file == file }

  /** The name goes at once; the contents stay for those who have the file open. */
  function Remove(m: Model, name: Name): Model
    requires name in m.names
  {
    m.(names := m.names - {name}, contents := if IsOpen(m, m.names[name]) then m.contents else m.contents - {m.names[name]})
  }

  function Close(m: Model, h: nat): Model
    requires h in m.handles
  {
    var file, rest := m.handles[h].file, m.(handles := m.handles - {h});
    if file in m.names.Values || IsOpen(rest, file) then rest else rest.(contents := m.contents - {file})
  }

  /** A write of nothing is allowed anywhere; other writes stay inside the file. */
  predicate CanWrite(m: Model, file: nat, off: nat, data: Bytes) {
    file in m.contents && (data == [] || off + |data| <= |m.contents[file]|)
  }

  function Write(m: Model, file: nat, off: nat, data: Bytes): Model
    requires CanWrite(m, file, off, data)
  {
    if data == [] then m else m.(contents := m.contents[file := Splice(m.contents[file], off, data)])
  }

  function Seek(m: Model, h: nat, pos: nat): Model
    requires h in m.handles
  {
    m.(handles := m.handles[h := m.handles[h].(pos := pos)])
  }

  function Deny(m: Model, h: nat, deny: bool): Model
    requires h in m.handles
  {
    m.(handles := m.handles[h := m.handles[h].(denyWrite := deny)])
  }

  predicate WritesDenied(m: Model, file: nat) {
    exists h :: h in m.handles && m.handles[h].file == file && m.handles[h].denyWrite
  }

  // ----- the model of a state -----

  ghost predicate HasInodes(s: Fs) { forall f | f in s.files :: s.files[f].inode in s.inodes }

  ghost predicate Modelled(s: Fs) { StorageOk(s) && HasInodes(s) }

  ghost function FileSectors(s: Fs): set<nat>
    requires Modelled(s)
  {
    Live(s) - {FREE_MAP_SECTOR, ROOT_DIR_SECTOR}
  }

  ghost function ContentsOf(s: Fs): map<nat, Bytes>
    requires Modelled(s)
  {
    map a | a in FileSectors(s) :: Content(s.disk, a)
  }

  ghost function HandlesIn(s: Fs): map<nat, Handle>
    requires HasInodes(s)
  {
    map f | f in s.files && f != 0 :: Handle(s.inodes[s.files[f].inode].sector, s.files[f].pos, s.files[f].denyWrite)
  }

  ghost function ModelOf(s: Fs): Model
    requires Modelled(s)
  {
    Model(NamesOf(Entries(s)), ContentsOf(s), HandlesIn(s))
  }

  lemma OkIsModelled(s: Fs, p: multiset<nat>)
    requires Ok(s, p)
    ensures Modelled(s)
  {
  }

  lemma ModelledFacts(s: Fs)
    requires Modelled(s)
    ensures HasInodes(s) && StorageOk(s) && DiskOk(s.disk) && InodeOk(s.disk, ROOT_DIR_SECTOR) && |s.freeMap| == |s.disk|
    ensures forall a | a in Live(s) :: InodeOk(s.disk, a)
  {
  }

  // ----- inode identities -----

  ghost predicate Grows(a: map<nat, Inode>, b: map<nat, Inode>) { forall i | i in a :: i in b && b[i].sector == a[i].sector }

  ghost predicate Keeps(a: map<nat, Inode>, b: map<nat, Inode>) { forall i | i in a && i in b :: b[i].sector == a[i].sector }

  lemma SameHandles(s: Fs, s': Fs)
    requires HasInodes(s) && HasInodes(s') && s'.files == s.files && Keeps(s.inodes, s'.inodes)
    ensures HandlesIn(s') == HandlesIn(s)
  {
  }

  lemma SameContents(s: Fs, s': Fs)
    requires Modelled(s) && Modelled(s') && Live(s') == Live(s) && SameFiles(s, s', Live(s) - {ROOT_DIR_SECTOR})
    ensures ContentsOf(s') == ContentsOf(s)
  {
    ModelledFacts(s);
    hide Modelled;
  }

  // ----- the model of each change -----

  lemma QuietModel(s: Fs, s': Fs)
    requires Quiet(s, s') && Modelled(s) && Modelled(s') && Keeps(s.inodes, s'.inodes)
    ensures ModelOf(s') == ModelOf(s)
  {
    hide StorageOk, HasInodes, Modelled, NamesOf, SameFiles, ContentsOf, HandlesIn, Live;
    ModelledFacts(s);
    ModelledFacts(s');
    SameHandles(s, s');
    FewerSame(s, s', Live(s), Live(s) - {ROOT_DIR_SECTOR});
    SameContents(s, s');
  }

  lemma FewerSame(s: Fs, s': Fs, live: set<nat>, fewer: set<nat>)
    requires DiskOk(s.disk) && DiskOk(s'.disk) && SameFiles(s, s', live) && fewer <= live
    ensures SameFiles(s, s', fewer)
  {
  }

  // ----- creating -----

  /** The inode in sec took over sectors that were free, and only those. */
  ghost predicate Claimed(s: Fs, s': Fs, sec: nat) {
    && DiskOk(s'.disk) && InodeOk(s'.disk, sec) && |s.freeMap| == |s'.freeMap| == |s'.disk|
    && (forall x: nat | x < |s'.disk| && Owns(s'.disk, sec, x) :: !s.freeMap[x])
    && (forall x: nat | x < |s'.disk| :: s'.freeMap[x] == (s.freeMap[x] || Owns(s'.disk, sec, x)))
  }

  /** A name was bound to a new file of zeros; every other name, file and handle is as
      before, and the free map lost exactly the sectors of the new file. */
  ghost predicate Added(s: Fs, s': Fs, name: Name, sec: nat, size: nat) {
    && StorageOk(s) && StorageOk(s') && sec !in Live(s) && Live(s') == Live(s) + {sec}
    && 1 <= |name| <= NAME_MAX && name !in NamesOf(Entries(s))
    && NamesOf(Entries(s')) == NamesOf(Entries(s))[name := sec]
    && InodeOk(s'.disk, sec) && Content(s'.disk, sec) == Zeros(size)
    && SameFiles(s, s', Live(s) - {ROOT_DIR_SECTOR}) && SameDescs(s, s', Live(s)) && Claimed(s, s', sec)
    && s'.inodes == s.inodes && s'.openList == s.openList && s'.files == s.files
  }

  /** The name cannot be added to the directory. */
  ghost predicate Refused(s: Fs, name: Name) {
    name == [] || |name| > NAME_MAX || NameTaken(s, name) || DirFull(s)
  }

  /** First fit finds no sector for the inode, or then none for the contents. */
  ghost predicate NoSpace(m: seq<bool>, size: nat) {
    forall x: nat | AllFree(m, x, 1) && (forall y: nat | y < x :: !AllFree(m, y, 1)) ::
      forall z: nat :: !AllFree(SetRange(m, x, 1, true), z, SectorsFor(size))
  }

  /** The sectors for the contents of a file that was never named stay marked. */
  ghost predicate Leaked(m: seq<bool>, m': seq<bool>, cnt: nat) {
    exists x: nat :: AllFree(m, x, cnt) && m' == SetRange(m, x, cnt, true)
  }

  /** The same with the sector of the inode already marked. */
  ghost predicate AddedAt(s: Fs, s': Fs, name: Name, sec: nat, size: nat) {
    && StorageOk(s) && StorageOk(s') && sec !in Live(s) && Live(s') == Live(s) + {sec}
    && 1 <= |name| <= NAME_MAX && name !in NamesOf(Entries(s))
    && NamesOf(Entries(s')) == NamesOf(Entries(s))[name := sec]
    && InodeOk(s'.disk, sec) && Content(s'.disk, sec) == Zeros(size)
    && SameFiles(s, s', Live(s) - {ROOT_DIR_SECTOR}) && SameDescs(s, s', Live(s)) && ClaimedData(s, s', sec)
    && s'.inodes == s.inodes && s'.openList == s.openList && s'.files == s.files
  }

  ghost predicate ClaimedData(s: Fs, s': Fs, sec: nat) {
    && DiskOk(s'.disk) && InodeOk(s'.disk, sec) && |s.freeMap| == |s'.freeMap| == |s'.disk| && sec < |s.disk| && s.freeMap[sec]
    && (forall x: nat | x < |s'.disk| && OwnsData(s'.disk, sec, x) :: !s.freeMap[x])
    && (forall x: nat | x < |s'.disk| :: s'.freeMap[x] == (s.freeMap[x] || OwnsData(s'.disk, sec, x)))
  }

  lemma UnownedIsNew(s: Fs, sec: nat)
    requires Unowned(s, sec, 1)
    ensures sec !in Live(s) && sec != FREE_MAP_SECTOR && sec != ROOT_DIR_SECTOR && sec < |s.disk| == |s.freeMap| && s.freeMap[sec]
  {
    if sec in Live(s) { assert Owns(s.disk, sec, sec); }
  }

  lemma NewIsUnowned(s: Fs, sec: nat, size: nat)
    requires IsNewFile(s, sec, size)
    ensures Unowned(s, sec, 1)
  {
    assert Owns(s.disk, sec, sec);
  }

  lemma TookFacts(s: Fs, s1: Fs, sec: nat, size: nat)
    requires TookExtent(s, s1, sec) && IsNewFile(s1, sec, size)
    ensures Leaked(s.freeMap, s1.freeMap, SectorsFor(size))
  {
    assert |Content(s1.disk, sec)| == size;
  }

  /** Whether dir_add takes a name, and whether that does harm, depends on the entries only. */
  lemma SameAcceptance(s: Fs, s1: Fs, name: Name, b: Bounce)
    requires StorageOk(s) && StorageOk(s1) && Entries(s1) == Entries(s)
    ensures DirAccepts(s1, name, b) <==> DirAccepts(s, name, b)
    ensures DirHarms(s1, name, b) <==> DirHarms(s, name, b)
  {
    hide Visible;
  }

  /** With memory for its reads and its write dir_add takes exactly the names that are not
      refused, and does no harm. */
  lemma AcceptsWithMemory(s: Fs, name: Name, b: Bounce)
    requires StorageOk(s) && b.write && forall k: nat | k < DIR_ENTRIES :: b.look(k) && b.slot(k)
    ensures DirAccepts(s, name, b) <==> !Refused(s, name)
    ensures !DirHarms(s, name, b)
  {
    var es := Entries(s);
    assert |es| == DIR_ENTRIES && SystemFilesOk(s) by { RootEntries(s); }
    VisibleWithMemory(s, name, b.look);
    var j := StopsAt(es, b.slot, 0);
    assert j == |es| <==> DirFull(s) by { hide StorageOk, SystemFilesOk; assert j < |es| ==> !InUse(es, j); }
    hide StorageOk, SystemFilesOk, Visible, DirFull;
  }

  lemma RootEntries(s: Fs)
    requires StorageOk(s)
    ensures SystemFilesOk(s) && |Entries(s)| == DIR_ENTRIES && DirOk(Entries(s))
  {
  }

  lemma VisibleWithMemory(s: Fs, name: Name, look: nat -> bool)
    requires StorageOk(s) && forall k: nat | k < DIR_ENTRIES :: look(k)
    ensures Visible(Entries(s), name, look) <==> NameTaken(s, name)
  {
    RootEntries(s);
    hide StorageOk;
    var es := Entries(s);
    if name in NamesOf(es) { assert Finds(es, name, look, SlotOf(es, name)); }
    if j: nat :| Finds(es, name, look, j) { EntryIsNamed(es, j); }
  }

  /** When lookup has no memory for its first read, a name in use is added once more. */
  lemma ShortReadHarms(s: Fs, name: Name)
    requires StorageOk(s) && NameTaken(s, name) && !DirFull(s)
    ensures DirHarms(s, name, Bounce(k => false, k => true, true))
  {
    RootEntries(s);
    hide StorageOk, SystemFilesOk, Entries, Visible;
    var es := Entries(s);
    EntryIsValid(es, SlotOf(es, name));
    StopsAtFree(es, k => true);
    NoneBefore(es, name, k => false);
    NotVisible(es, name, k => false, 0);
    hide NamesOf, CString;
  }

  lemma StopsAtFree(es: seq<Entry>, slot: nat -> bool)
    requires !(forall j: nat | j < |es| :: InUse(es, j))
    ensures StopsAt(es, slot, 0) < |es|
  {
  }

  /** filesys_create gets as far as dir_add. */
  ghost predicate Reaches(m: seq<bool>, size: nat, memoryOk: bool, mapOk: nat -> bool) {
    SavesMap(|m|, mapOk(0)) && memoryOk && SavesMap(|m|, mapOk(1)) && !NoSpace(m, size)
  }

  lemma NoSectorReaches(m: seq<bool>, size: nat, memoryOk: bool, mapOk: nat -> bool)
    requires !SavesMap(|m|, mapOk(0)) || forall x: nat :: !AllFree(m, x, 1)
    ensures !Reaches(m, size, memoryOk, mapOk)
  {
    if forall x: nat :: !AllFree(m, x, 1) { NoSector(m, size); }
  }

  lemma ReachesIs(m: seq<bool>, x: nat, size: nat, memoryOk: bool, mapOk: nat -> bool)
    requires SavesMap(|m|, mapOk(0)) && FirstFree(m, x, 1)
    ensures Reaches(m, size, memoryOk, mapOk) <==> HasExtent(SetRange(m, x, 1, true), size, memoryOk, mapOk(1))
  {
    NoSpaceIs(m, x, size);
    hide SavesMap, SectorsFor, AllFree;
  }

  lemma UndisturbedEntries(s: Fs, s1: Fs)
    requires Undisturbed(s, s1)
    ensures StorageOk(s) && StorageOk(s1) && Entries(s1) == Entries(s)
  {
  }

  lemma SameHarm(s: Fs, s1: Fs, s2: Fs, name: Name, b: Bounce)
    requires StorageOk(s) && StorageOk(s1) && Entries(s1) == Entries(s) && Harmed(s1, s2, name, b)
    ensures Harmed(s, s2, name, b)
  {
    RootEntries(s);
    RootEntries(s1);
    hide StorageOk, KeepsNames;
  }

  lemma HarmStays(s: Fs, s2: Fs, s3: Fs, name: Name, b: Bounce)
    requires Harmed(s, s2, name, b) && s3.disk == s2.disk && s3.freeMap == s2.freeMap && s3.saved == s2.saved
    ensures Harmed(s, s3, name, b)
  {
    hide KeepsNames;
  }

  /** The root directory is never removed. */
  lemma RootIsKept(s: Fs, root: nat)
    requires StorageOk(s) && root in s.inodes && s.inodes[root].sector == ROOT_DIR_SECTOR
    ensures !s.inodes[root].removed
  {
    OpenInodeFacts(s, root);
  }

  /** An inode that was opened by its name is not marked removed. */
  lemma NamedIsKept(s: Fs, s1: Fs, j: nat, id: nat)
    requires TablesOnly(s, s1) && j < |Entries(s)| && InUse(Entries(s), j) && id in s1.inodes && s1.inodes[id].sector == Entries(s)[j].sector
    ensures !s1.inodes[id].removed
  {
    OpenInodeFacts(s1, id);
  }

  lemma LeakShows(m: seq<bool>, m': seq<bool>, size: nat)
    requires Leaked(m, m', SectorsFor(size))
    ensures m' != m <==> size > 0
  {
    var x: nat :| AllFree(m, x, SectorsFor(size)) && m' == SetRange(m, x, SectorsFor(size), true);
    if size > 0 { assert m'[x] && !m[x]; }
  }

  lemma AddedFrom(s: Fs, s1: Fs, s2: Fs, name: Name, sec: nat, size: nat)
    requires Undisturbed(s, s1) && TookExtent(s, s1, sec) && NameAdded(s1, s2, name, sec, size)
    requires sec < |s.freeMap| && s.freeMap[sec]
    ensures AddedAt(s, s2, name, sec, size)
  {
    hide StorageOk, Live, NamesOf, SameFiles;
    AddedFacts(s1, s2, name, sec, size);
    UndisturbedFacts(s, s1);
    FewerSame(s, s1, Live(s), Live(s) - {ROOT_DIR_SECTOR});
    SameDescsTrans(s, s1, s2, Live(s), Live(s1));
    SameFilesTrans(s, s1, s2, Live(s) - {ROOT_DIR_SECTOR}, Live(s1) - {ROOT_DIR_SECTOR});
    assert (Live(s) - {ROOT_DIR_SECTOR}) * (Live(s1) - {ROOT_DIR_SECTOR}) == Live(s) - {ROOT_DIR_SECTOR};
  }

  lemma UndisturbedFacts(s: Fs, s1: Fs)
    requires Undisturbed(s, s1)
    ensures DiskOk(s.disk) && InodeOk(s.disk, ROOT_DIR_SECTOR) && DiskOk(s1.disk) && InodeOk(s1.disk, ROOT_DIR_SECTOR)
    ensures |s.freeMap| == |s.disk| == |s1.disk| == |s1.freeMap| && SystemFilesOk(s) && SystemFilesOk(s1)
    ensures SameDescs(s, s1, Live(s))
  {
  }

  lemma AddedFacts(s: Fs, s': Fs, name: Name, sec: nat, size: nat)
    requires NameAdded(s, s', name, sec, size)
    ensures DiskOk(s.disk) && InodeOk(s.disk, ROOT_DIR_SECTOR) && DiskOk(s'.disk) && InodeOk(s'.disk, ROOT_DIR_SECTOR)
    ensures |s.freeMap| == |s.disk| == |s'.disk| == |s'.freeMap|
  {
  }

  lemma RootIsLive(s: Fs)
    requires StorageOk(s)
    ensures LiveIn(s, ROOT_DIR_SECTOR)
  {
  }

  /** Giving back the inode sector leaves only the sectors meant for the contents marked. */
  lemma ReleaseUndoes(m: seq<bool>, x: nat, m2: seq<bool>, cnt: nat)
    requires AllFree(m, x, 1)
    ensures SetRange(SetRange(m, x, 1, true), x, 1, false) == m
    ensures Leaked(SetRange(m, x, 1, true), m2, cnt) ==> Leaked(m, SetRange(m2, x, 1, false), cnt)
  {
    if Leaked(SetRange(m, x, 1, true), m2, cnt) {
      var m1 := SetRange(m, x, 1, true);
      var z: nat :| AllFree(m1, z, cnt) && m2 == SetRange(m1, z, cnt, true);
      assert m1[x];
      assert SetRange(m2, x, 1, false) == SetRange(m, z, cnt, true);
    }
  }

  lemma NoSpaceIs(m: seq<bool>, x: nat, size: nat)
    requires AllFree(m, x, 1) && forall y: nat | y < x :: !AllFree(m, y, 1)
    ensures NoSpace(m, size) <==> forall z: nat :: !AllFree(SetRange(m, x, 1, true), z, SectorsFor(size))
  {
  }

  lemma ClaimedBoth(s: Fs, s1: Fs, s2: Fs, sec: nat)
    requires AllFree(s.freeMap, sec, 1) && s1.freeMap == SetRange(s.freeMap, sec, 1, true)
    requires ClaimedData(s1, s2, sec)
    ensures Claimed(s, s2, sec)
  {
  }

  lemma AddedIs(s: Fs, s1: Fs, s2: Fs, name: Name, sec: nat, size: nat)
    requires Undisturbed(s, s1) && AddedAt(s1, s2, name, sec, size)
    requires AllFree(s.freeMap, sec, 1) && s1.freeMap == SetRange(s.freeMap, sec, 1, true)
    ensures Added(s, s2, name, sec, size)
  {
    hide StorageOk, Live, NamesOf, SameFiles, Claimed, ClaimedData, AllFree;
    UndisturbedFacts(s, s1);
    AddedAtFacts(s1, s2, name, sec, size);
    ClaimedBoth(s, s1, s2, sec);
    FewerSame(s, s1, Live(s), Live(s) - {ROOT_DIR_SECTOR});
    SameFilesTrans(s, s1, s2, Live(s) - {ROOT_DIR_SECTOR}, Live(s1) - {ROOT_DIR_SECTOR});
    assert (Live(s) - {ROOT_DIR_SECTOR}) * (Live(s1) - {ROOT_DIR_SECTOR}) == Live(s) - {ROOT_DIR_SECTOR};
  }

  lemma AddedAtFacts(s: Fs, s': Fs, name: Name, sec: nat, size: nat)
    requires AddedAt(s, s', name, sec, size)
    ensures DiskOk(s.disk) && InodeOk(s.disk, ROOT_DIR_SECTOR) && DiskOk(s'.disk) && InodeOk(s'.disk, ROOT_DIR_SECTOR)
  {
  }

  lemma AddedModel(s: Fs, s': Fs, name: Name, sec: nat, size: nat)
    requires Added(s, s', name, sec, size) && Modelled(s) && Modelled(s')
    ensures name !in ModelOf(s).names && sec !in ModelOf(s).contents
    ensures ModelOf(s') == Create(ModelOf(s), name, sec, size)
  {
    hide StorageOk, HasInodes, NamesOf, Live, SameFiles, Claimed;
    ModelledFacts(s);
    ModelledFacts(s');
    AddedContents(s, s', name, sec, size);
    SameHandles(s, s');
  }

  lemma AddedContents(s: Fs, s': Fs, name: Name, sec: nat, size: nat)
    requires Added(s, s', name, sec, size) && Modelled(s) && Modelled(s')
    ensures ContentsOf(s') == ContentsOf(s)[sec := Zeros(size)] && sec !in FileSectors(s)
  {
    hide HasInodes, NamesOf, Claimed, Content;
    ModelledFacts(s);
    assert sec != FREE_MAP_SECTOR && sec != ROOT_DIR_SECTOR;
    assert FileSectors(s') == FileSectors(s) + {sec};
    hide StorageOk, Live;
    forall a | a in FileSectors(s) ensures Content(s'.disk, a) == Content(s.disk, a) { }
  }

  // ----- accounting for sectors -----

  /** A sector that is marked although no live file owns it. */
  ghost predicate Spare(s: Fs, x: nat) {
    StorageOk(s) && x < |s.freeMap| && s.freeMap[x] && forall a | a in Live(s) :: !Owns(s.disk, a, x)
  }

  /** No sector was lost or freed wrongly, and files that stay live kept their extents. */
  ghost predicate Accounted(s: Fs, s': Fs) {
    && StorageOk(s) && StorageOk(s') && SameDescs(s, s', Live(s) * Live(s'))
    && forall x: nat :: Spare(s, x) <==> Spare(s', x)
  }

  lemma AccountedTrans(a: Fs, b: Fs, c: Fs)
    requires Accounted(a, b) && Accounted(b, c) && Live(a) * Live(c) <= Live(b)
    ensures Accounted(a, c)
  {
    hide StorageOk, Live, Spare;
    SystemFacts(a);
    SystemFacts(b);
    SystemFacts(c);
    SameDescsTrans(a, b, c, Live(a) * Live(b), Live(b) * Live(c));
    assert (Live(a) * Live(b)) * (Live(b) * Live(c)) == Live(a) * Live(c);
  }

  lemma SystemFacts(s: Fs)
    requires StorageOk(s)
    ensures DiskOk(s.disk) && InodeOk(s.disk, ROOT_DIR_SECTOR) && |s.freeMap| == |s.disk|
    ensures forall a | a in Live(s) :: a < |s.disk|
  {
  }

  lemma SameOwners(s: Fs, s': Fs, live: set<nat>)
    requires DiskOk(s.disk) && DiskOk(s'.disk) && SameDescs(s, s', live) && forall a | a in live :: a < |s.disk|
    ensures |s'.disk| == |s.disk| && forall a, x: nat | a in live :: Owns(s'.disk, a, x) == Owns(s.disk, a, x)
  {
  }

  lemma AccountedSame(s: Fs, s': Fs)
    requires StorageOk(s) && StorageOk(s') && Live(s') == Live(s) && SameDescs(s, s', Live(s)) && s'.freeMap == s.freeMap
    ensures Accounted(s, s')
  {
    SystemFacts(s);
    SystemFacts(s');
    SameOwners(s, s', Live(s));
    hide StorageOk, Live, Owns;
    assert Live(s) * Live(s') == Live(s);
  }

  lemma AccountedAdded(s: Fs, s': Fs, name: Name, sec: nat, size: nat)
    requires Added(s, s', name, sec, size)
    ensures Accounted(s, s')
  {
    SystemFacts(s);
    SystemFacts(s');
    SameOwners(s, s', Live(s));
    hide StorageOk, Live, Owns;
    assert Live(s) * Live(s') == Live(s);
    forall x: nat ensures Spare(s, x) <==> Spare(s', x) { }
  }

  /** Freeing exactly the sectors of a file that is no longer live. */
  lemma AccountedFreed(s: Fs, s': Fs, sec: nat)
    requires StorageOk(s) && StorageOk(s') && sec in Live(s) && sec < |s.disk| && Live(s') == Live(s) - {sec} && SameDescs(s, s', Live(s'))
    requires DiskOk(s.disk) && |s'.freeMap| == |s.freeMap|
    requires forall x: nat | x < |s.disk| :: s'.freeMap[x] == (s.freeMap[x] && !Owns(s.disk, sec, x))
    ensures Accounted(s, s')
  {
    SystemFacts(s);
    SystemFacts(s');
    SameOwners(s, s', Live(s'));
    hide StorageOk, Live, Owns;
    assert Live(s) * Live(s') == Live(s');
    forall x: nat ensures Spare(s, x) <==> Spare(s', x) { }
  }

  lemma AccountedRemoved(s: Fs, s': Fs, name: Name)
    requires NameRemoved(s, s', name)
    ensures Accounted(s, s')
  {
    hide StorageOk, Live, Owns, NamesOf, OpenSectors, Entries, SameFiles;
    NameRemovedFacts(s, s', name);
    var sec := NamesOf(Entries(s))[name];
    if sec in OpenSectors(s.inodes) {
      assert s'.freeMap == s.freeMap;
      AccountedSame(s, s');
    } else {
      AccountedFreed(s, s', sec);
    }
  }

  lemma NameRemovedFacts(s: Fs, s': Fs, name: Name)
    requires NameRemoved(s, s', name)
    ensures DiskOk(s.disk) && InodeOk(s.disk, ROOT_DIR_SECTOR) && |s.freeMap| == |s.disk|
    ensures DiskOk(s'.disk) && InodeOk(s'.disk, ROOT_DIR_SECTOR)
    ensures name in NamesOf(Entries(s)) && NamesOf(Entries(s))[name] in Live(s)
  {
  }

  lemma AccountedClosed(s: Fs, s': Fs, node: Inode)
    requires ClosedInode(s, s', node) && LiveIn(s, node.sector)
    ensures Accounted(s, s')
  {
    hide StorageOk, Live, Owns, Entries, SameFiles;
    ClosedFacts(s, s', node);
    LiveFacts(s, node.sector);
    if node.openCnt == 1 && node.removed {
      AccountedFreed(s, s', node.sector);
    } else {
      assert SameDescs(s, s', Live(s'));
      AccountedSame(s, s');
    }
  }

  /** The whole effect of filesys_create. */
  ghost predicate Created(s: Fs, s': Fs, name: Name, file: nat, size: nat) {
    && Modelled(s) && Modelled(s') && name !in ModelOf(s).names && file !in ModelOf(s).contents
    && ModelOf(s') == Create(ModelOf(s), name, file, size) && Claimed(s, s', file)
    && Accounted(s, s')
  }

  /** The names, the contents and the handles are the same, and no file moved on the disk. */
  ghost predicate SameModel(s: Fs, s': Fs) {
    Modelled(s) && Modelled(s') && ModelOf(s') == ModelOf(s) && Live(s') == Live(s) && SameDescs(s, s', Live(s))
  }

  lemma AccountedModel(s: Fs, s': Fs)
    requires SameModel(s, s') && s'.freeMap == s.freeMap
    ensures Accounted(s, s') && Live(s') == Live(s)
  {
    AccountedSame(s, s');
  }

  lemma OpenedModel(s: Fs, s': Fs, p: multiset<nat>, q: multiset<nat>)
    requires TablesOnly(s, s') && Grows(s.inodes, s'.inodes) && Ok(s, p) && Ok(s', q)
    ensures SameModel(s, s') && s'.disk == s.disk && s'.freeMap == s.freeMap
    ensures StorageOk(s) && StorageOk(s') && Entries(s') == Entries(s)
  {
    OpenedSame(s, s');
    hide StorageOk, TablesOk, TablesOnly, Quiet;
    OkIsModelled(s, p);
    OkIsModelled(s', q);
    QuietModel(s, s');
  }

  lemma QuietSame(s: Fs, s': Fs, p: multiset<nat>, q: multiset<nat>)
    requires Quiet(s, s') && Keeps(s.inodes, s'.inodes) && Ok(s, p) && Ok(s', q)
    ensures SameModel(s, s')
  {
    QuietDescs(s, s');
    hide StorageOk, TablesOk, Quiet;
    OkIsModelled(s, p);
    OkIsModelled(s', q);
    QuietModel(s, s');
    ModelledFacts(s);
    ModelledFacts(s');
    hide ModelOf, Live, Modelled;
  }

  lemma QuietDescs(s: Fs, s': Fs)
    requires Quiet(s, s')
    ensures DiskOk(s.disk) && InodeOk(s.disk, ROOT_DIR_SECTOR) && DiskOk(s'.disk) && InodeOk(s'.disk, ROOT_DIR_SECTOR)
    ensures Live(s') == Live(s) && SameDescs(s, s', Live(s))
  {
    SameFilesDescs(s, s', Live(s));
  }

  lemma CreatedIs(s: Fs, s1: Fs, s2: Fs, s3: Fs, name: Name, file: nat, size: nat)
    requires SameModel(s, s1) && s1.freeMap == s.freeMap && Added(s1, s2, name, file, size)
    requires SameModel(s2, s3) && s3.freeMap == s2.freeMap && s3.disk == s2.disk
    ensures Created(s, s3, name, file, size)
  {
    hide ModelOf, Modelled, Claimed, StorageOk, Live, Accounted, Added, SameModel;
    ClaimedOnly(s, s1, s2, s3, name, file, size);
    SameModelIs(s, s1);
    SameModelIs(s2, s3);
    AddedModel(s1, s2, name, file, size);
    AccountedModel(s, s1);
    AccountedAdded(s1, s2, name, file, size);
    AccountedModel(s2, s3);
    AccountedTrans(s, s1, s2);
    AccountedTrans(s, s2, s3);
  }

  lemma ClaimedOnly(s: Fs, s1: Fs, s2: Fs, s3: Fs, name: Name, file: nat, size: nat)
    requires s1.freeMap == s.freeMap && Added(s1, s2, name, file, size) && s3.freeMap == s2.freeMap && s3.disk == s2.disk
    ensures Claimed(s, s3, file)
  {
  }

  lemma UndisturbedSame(s: Fs, s': Fs, p: multiset<nat>)
    requires Undisturbed(s, s') && Ok(s, p) && Ok(s', p)
    ensures SameModel(s, s')
  {
    assert Quiet(s, s');
    hide StorageOk, TablesOk, Undisturbed, Quiet;
    QuietSame(s, s', p, p);
  }

  lemma SameModelTrans(a: Fs, b: Fs, c: Fs, d: Fs)
    requires SameModel(a, b) && SameModel(b, c) && SameModel(c, d)
    ensures SameModel(a, d)
  {
  }

  lemma NoSector(m: seq<bool>, size: nat)
    requires forall x: nat :: !AllFree(m, x, 1)
    ensures NoSpace(m, size)
  {
  }

  // ----- opening -----

  /** The whole effect of filesys_open. */
  ghost predicate Opened(s: Fs, s': Fs, name: Name, h: nat) {
    && Modelled(s) && Modelled(s') && name in ModelOf(s).names && h !in ModelOf(s).handles
    && ModelOf(s') == Open(ModelOf(s), ModelOf(s).names[name], h) && Accounted(s, s')
  }

  lemma AttachModel(s: Fs, h: nat, id: nat, p: multiset<nat>, q: multiset<nat>)
    requires Ok(s, p) && h !in s.files && h != 0 && id in s.inodes && Ok(Attach(s, h, id), q)
    ensures Modelled(s) && Modelled(Attach(s, h, id)) && Live(Attach(s, h, id)) == Live(s)
    ensures h !in ModelOf(s).handles && ModelOf(Attach(s, h, id)) == Open(ModelOf(s), s.inodes[id].sector, h)
  {
    var s' := Attach(s, h, id);
    hide StorageOk, TablesOk;
    StorageSame(s, s');
    OkIsModelled(s, p);
    OkIsModelled(s', q);
    ModelledFacts(s);
    assert ContentsOf(s') == ContentsOf(s);
    assert HandlesIn(s') == HandlesIn(s)[h := Handle(s.inodes[id].sector, 0, false)];
  }

  lemma OpenedIs(s: Fs, s1: Fs, s2: Fs, name: Name, h: nat)
    requires SameModel(s, s1) && Modelled(s2) && name in ModelOf(s1).names && h !in ModelOf(s1).handles
    requires s1.freeMap == s.freeMap == s2.freeMap && s2.disk == s1.disk && Live(s2) == Live(s1)
    requires ModelOf(s2) == Open(ModelOf(s1), ModelOf(s1).names[name], h)
    ensures Opened(s, s2, name, h)
  {
    hide ModelOf, StorageOk, Live, HasInodes;
    ModelledFacts(s);
    ModelledFacts(s1);
    ModelledFacts(s2);
    AccountedModel(s, s1);
    AccountedSame(s1, s2);
    AccountedTrans(s, s1, s2);
  }

  /** A file other than the system files is open exactly when somebody has a handle on it. */
  lemma OpenIffHandle(s: Fs, p: multiset<nat>, file: nat)
    requires Ok(s, p) && Modelled(s) && file != FREE_MAP_SECTOR
    requires forall i | i in p && i in s.inodes :: s.inodes[i].sector != file
    ensures file in OpenSectors(s.inodes) <==> IsOpen(ModelOf(s), file)
  {
    hide StorageOk, ContentsOf, NamesOf, Entries;
    if file in OpenSectors(s.inodes) {
      var i :| i in s.inodes && s.inodes[i].sector == file;
      assert CountOk(s.files, i, s.inodes[i], p);
      assert HandlesOf(s.files, i) != {};
      var f :| f in HandlesOf(s.files, i);
      assert f in HandlesIn(s) && HandlesIn(s)[f].file == file;
    }
    if IsOpen(ModelOf(s), file) {
      var h :| h in HandlesIn(s) && HandlesIn(s)[h].file == file;
      assert s.files[h].inode in s.inodes;
    }
  }

  // ----- removing -----

  /** Exactly the sectors of the file became free. */
  ghost predicate Released(s: Fs, s': Fs, file: nat) {
    && DiskOk(s.disk) && file < |s.disk| && |s'.freeMap| == |s.freeMap| == |s.disk|
    && forall x: nat | x < |s.disk| :: s'.freeMap[x] == (s.freeMap[x] && !Owns(s.disk, file, x))
  }

  /** The whole effect of filesys_remove. */
  ghost predicate Removed(s: Fs, s': Fs, name: Name) {
    && Modelled(s) && Modelled(s') && name in ModelOf(s).names && ModelOf(s') == Remove(ModelOf(s), name)
    && (var file := ModelOf(s).names[name]; if IsOpen(ModelOf(s), file) then s'.freeMap == s.freeMap else Released(s, s', file))
    && Accounted(s, s')
  }

  lemma RemovedModel(s: Fs, s': Fs, name: Name, p: multiset<nat>)
    requires NameRemoved(s, s', name) && Keeps(s.inodes, s'.inodes) && Ok(s, p) && Modelled(s) && Modelled(s')
    requires forall i | i in p && i in s.inodes :: s.inodes[i].sector == ROOT_DIR_SECTOR
    ensures Removed(s, s', name)
  {
    hide StorageOk, TablesOk, HasInodes, NamesOf, Live, OpenSectors, Owns, SameFiles, Modelled;
    ModelledFacts(s);
    ModelledFacts(s');
    var file := NamesOf(Entries(s))[name];
    NamesAreFiles(s, name);
    OpenIffHandle(s, p, file);
    SameHandles(s, s');
    RemovedContents(s, s', name);
    AccountedRemoved(s, s', name);
    if file in OpenSectors(s.inodes) { assert s'.freeMap == s.freeMap; }
  }

  lemma NamesAreFiles(s: Fs, name: Name)
    requires StorageOk(s) && name in NamesOf(Entries(s))
    ensures NamesOf(Entries(s))[name] != FREE_MAP_SECTOR && NamesOf(Entries(s))[name] != ROOT_DIR_SECTOR
    ensures NamesOf(Entries(s))[name] in Live(s)
  {
    EntryIsValid(Entries(s), SlotOf(Entries(s), name));
  }

  lemma RemovedContents(s: Fs, s': Fs, name: Name)
    requires NameRemoved(s, s', name) && Modelled(s) && Modelled(s')
    ensures var file := NamesOf(Entries(s))[name];
            ContentsOf(s') == if file in OpenSectors(s.inodes) then ContentsOf(s) else ContentsOf(s) - {file}
  {
    hide StorageOk, HasInodes, NamesOf, OpenSectors, Owns, Live, Modelled;
    ModelledFacts(s);
    ModelledFacts(s');
    FewerContents(s, s');
  }

  /** Files that stay live keep their contents. */
  lemma FewerContents(s: Fs, s': Fs)
    requires Modelled(s) && Modelled(s') && Live(s') <= Live(s) && SameFiles(s, s', Live(s') - {ROOT_DIR_SECTOR})
    ensures forall a | a in ContentsOf(s') :: a in ContentsOf(s) && ContentsOf(s')[a] == ContentsOf(s)[a]
    ensures ContentsOf(s').Keys == Live(s') - {FREE_MAP_SECTOR, ROOT_DIR_SECTOR}
    ensures ContentsOf(s).Keys == Live(s) - {FREE_MAP_SECTOR, ROOT_DIR_SECTOR}
  {
    ModelledFacts(s);
    hide Modelled, Live;
  }

  lemma RemovedIs(s: Fs, s1: Fs, s2: Fs, s3: Fs, name: Name)
    requires SameModel(s, s1) && s1.freeMap == s.freeMap && s1.disk == s.disk && Removed(s1, s2, name)
    requires SameModel(s2, s3) && s3.freeMap == s2.freeMap
    ensures Removed(s, s3, name)
  {
    hide ModelOf, Modelled, IsOpen, StorageOk, Live, Accounted, SameModel;
    SameModelIs(s, s1);
    SameModelIs(s2, s3);
    AccountedModel(s, s1);
    AccountedModel(s2, s3);
    AccountedTrans(s, s1, s2);
    AccountedTrans(s, s2, s3);
  }

  ghost function PendingOne(id: Option<nat>): multiset<nat> {
    if id.Some? then multiset{id.value} else multiset{}
  }

  ghost predicate NameIs(s: Fs, name: Name, sec: nat) {
    StorageOk(s) && name in NamesOf(Entries(s)) && NamesOf(Entries(s))[name] == sec
  }

  lemma NameIsFrom(s: Fs, s': Fs, name: Name, sec: nat)
    requires TablesOnly(s, s') && name in NamesOf(Entries(s)) && NamesOf(Entries(s))[name] == sec
    ensures NameIs(s', name, sec)
  {
  }

  lemma SelfSame(s: Fs, p: multiset<nat>)
    requires Ok(s, p)
    ensures SameModel(s, s)
  {
  }

  lemma StillNamed(s: Fs, s': Fs, name: Name, id: nat, p: multiset<nat>)
    requires id in s.inodes && NameIs(s, name, s.inodes[id].sector) && Quiet(s, s') && Grows(s'.inodes, s.inodes)
    requires Ok(s', p) && id in p
    ensures id in s'.inodes && NameIs(s', name, s'.inodes[id].sector)
  {
  }

  lemma NamedInode(s: Fs, name: Name, id: nat)
    requires id in s.inodes && NameIs(s, name, s.inodes[id].sector)
    ensures !s.inodes[id].removed && s.inodes[id].sector !in {FREE_MAP_SECTOR, ROOT_DIR_SECTOR}
    ensures Modelled(s) ==> name in ModelOf(s).names && ModelOf(s).names[name] == s.inodes[id].sector
  {
    OpenInodeFacts(s, id);
    EntryIsValid(Entries(s), SlotOf(Entries(s), name));
  }

  lemma KeptQuiet(s: Fs, s': Fs, node: Inode)
    requires ClosedInode(s, s', node) && (!node.removed || node.openCnt > 1) && s'.files == s.files
    ensures Quiet(s, s') && s'.freeMap == s.freeMap
  {
  }

  lemma RemovedOk(s: Fs, s': Fs, name: Name, p: multiset<nat>)
    requires NameRemoved(s, s', name) && Keeps(s.inodes, s'.inodes) && Ok(s, p) && Ok(s', p)
    requires forall i | i in p && i in s.inodes :: s.inodes[i].sector == ROOT_DIR_SECTOR
    ensures Removed(s, s', name)
  {
    hide StorageOk, TablesOk, NameRemoved, Removed;
    OkIsModelled(s, p);
    OkIsModelled(s', p);
    RemovedModel(s, s', name, p);
  }

  lemma SelfTables(s: Fs)
    requires StorageOk(s)
    ensures TablesOnly(s, s)
  {
  }

  // ----- open files -----

  /** Changes of the tables that keep the disk and the live files concern handles only. */
  lemma HandlesOnly(s: Fs, s': Fs)
    requires Modelled(s) && Modelled(s') && s'.disk == s.disk && Live(s') == Live(s) && Entries(s') == Entries(s)
    ensures ModelOf(s') == ModelOf(s).(handles := HandlesIn(s'))
  {
    ModelledFacts(s);
    ModelledFacts(s');
    hide Modelled, HasInodes, Live;
    assert ContentsOf(s') == ContentsOf(s);
  }

  /** What an open file refers to. */
  lemma HandleFacts(s: Fs, f: nat)
    requires Ok(s, multiset{}) && f in s.files && f != 0
    ensures s.files[f].inode in s.inodes && Modelled(s)
    ensures var node := s.inodes[s.files[f].inode];
            && node.sector != FREE_MAP_SECTOR && node.sector != ROOT_DIR_SECTOR && node.sector in Live(s)
            && DiskOk(s.disk) && node.sector < |s.disk| && InodeOk(s.disk, node.sector) && node.data == Desc(s.disk, node.sector)
            && f in ModelOf(s).handles && ModelOf(s).handles[f] == Handle(node.sector, s.files[f].pos, s.files[f].denyWrite)
            && node.sector in ModelOf(s).contents && ModelOf(s).contents[node.sector] == Content(s.disk, node.sector)
    ensures s.files[f].pos >= 0
  {
    hide StorageOk, TablesOk, InodeOk, Content, Live, Entries;
    FileInTable(s, f);
    OkIsModelled(s, multiset{});
    OpenInodeFacts(s, s.files[f].inode);
    ModelledFacts(s);
  }

  lemma FileInTable(s: Fs, f: nat)
    requires TablesOk(s, multiset{}) && f in s.files && f != 0
    ensures s.files[f].inode in s.inodes && s.files[f].pos >= 0
    ensures s.inodes[s.files[f].inode].sector != FREE_MAP_SECTOR && s.inodes[s.files[f].inode].sector != ROOT_DIR_SECTOR
  {
  }

  lemma DeniedFacts(s: Fs, id: nat)
    requires Ok(s, multiset{}) && id in s.inodes && Modelled(s) && s.inodes[id].sector != FREE_MAP_SECTOR
    ensures s.inodes[id].denyCnt != 0 <==> WritesDenied(ModelOf(s), s.inodes[id].sector)
  {
    hide StorageOk, ContentsOf, NamesOf, Entries;
    var file := s.inodes[id].sector;
    assert CountOk(s.files, id, s.inodes[id], multiset{});
    if s.inodes[id].denyCnt != 0 {
      var f :| f in DenyersOf(s.files, id);
      assert f in HandlesIn(s) && HandlesIn(s)[f].file == file;
    }
    if WritesDenied(ModelOf(s), file) {
      var h :| h in HandlesIn(s) && HandlesIn(s)[h].file == file && HandlesIn(s)[h].denyWrite;
      assert s.inodes[s.files[h].inode].sector == file;
      assert h in DenyersOf(s.files, id);
    }
  }

  lemma DenyModel(s: Fs, f: nat, deny: bool)
    requires Ok(s, multiset{}) && f in s.files && f != 0 && s.files[f].inode in s.inodes && Ok(SetDeny(s, f, deny), multiset{})
    requires Live(SetDeny(s, f, deny)) == Live(s) && Entries(SetDeny(s, f, deny)) == Entries(s)
    ensures Modelled(s) && Modelled(SetDeny(s, f, deny)) && f in ModelOf(s).handles && SameStorage(s, SetDeny(s, f, deny))
    ensures ModelOf(SetDeny(s, f, deny)) == Deny(ModelOf(s), f, deny)
  {
    hide StorageOk, TablesOk, Live, ContentsOf, NamesOf, Entries;
    OkIsModelled(s, multiset{});
    OkIsModelled(SetDeny(s, f, deny), multiset{});
    HandlesOnly(s, SetDeny(s, f, deny));
    DenyHandlesIn(s, f, deny);
  }

  lemma DenyHandlesIn(s: Fs, f: nat, deny: bool)
    requires HasInodes(s) && f in s.files && f != 0 && HasInodes(SetDeny(s, f, deny))
    ensures f in HandlesIn(s)
    ensures HandlesIn(SetDeny(s, f, deny)) == HandlesIn(s)[f := HandlesIn(s)[f].(denyWrite := deny)]
  {
  }

  lemma SeekModel(s: Fs, f: nat, pos: nat)
    requires Ok(s, multiset{}) && f in s.files && f != 0 && Ok(SetPos(s, f, pos), multiset{})
    requires Live(SetPos(s, f, pos)) == Live(s) && Entries(SetPos(s, f, pos)) == Entries(s)
    ensures Modelled(s) && Modelled(SetPos(s, f, pos)) && f in ModelOf(s).handles && SameStorage(s, SetPos(s, f, pos))
    ensures ModelOf(SetPos(s, f, pos)) == Seek(ModelOf(s), f, pos)
  {
    hide StorageOk, TablesOk, Live;
    HandleFacts(s, f);
    OkIsModelled(SetPos(s, f, pos), multiset{});
    HandlesOnly(s, SetPos(s, f, pos));
    assert HandlesIn(SetPos(s, f, pos)) == Seek(ModelOf(s), f, pos).handles;
  }

  lemma DetachModel(s: Fs, f: nat, p: multiset<nat>)
    requires Ok(s, multiset{}) && f in s.files && f != 0 && Ok(Detach(s, f), p)
    requires Live(Detach(s, f)) == Live(s) && Entries(Detach(s, f)) == Entries(s)
    ensures Modelled(s) && Modelled(Detach(s, f)) && f in ModelOf(s).handles && SameStorage(s, Detach(s, f))
    ensures ModelOf(Detach(s, f)) == ModelOf(s).(handles := ModelOf(s).handles - {f})
  {
    hide StorageOk, TablesOk, Live;
    HandleFacts(s, f);
    OkIsModelled(Detach(s, f), p);
    HandlesOnly(s, Detach(s, f));
    assert HandlesIn(Detach(s, f)) == HandlesIn(s) - {f};
  }

  // ----- writing -----

  lemma WriteModel(s: Fs, w: nat, off: nat, data: Bytes)
    requires Ok(s, multiset{}) && w in Live(s) && w != FREE_MAP_SECTOR && w != ROOT_DIR_SECTOR
    requires DiskOk(s.disk) && InodeOk(s.disk, w) && off + |data| <= Desc(s.disk, w).length
    ensures var s' := s.(disk := WriteFile(s.disk, w, off, data));
            && Ok(s', multiset{}) && Modelled(s) && Modelled(s') && w in ModelOf(s).contents && Accounted(s, s')
            && ModelOf(s') == ModelOf(s).(contents := ModelOf(s).contents[w := Splice(Content(s.disk, w), off, data)])
  {
    hide StorageOk, TablesOk, Live, SameFiles;
    var s' := s.(disk := WriteFile(s.disk, w, off, data));
    FileWriteKeeps(s, w, off, data);
    SameTables(s, s', multiset{});
    OkIsModelled(s, multiset{});
    OkIsModelled(s', multiset{});
    SameHandles(s, s');
    WrittenContents(s, s', w);
    AccountedSame(s, s');
  }

  lemma WrittenContents(s: Fs, s': Fs, w: nat)
    requires Modelled(s) && Modelled(s') && Live(s') == Live(s) && SameFiles(s, s', Live(s) - {w}) && w in FileSectors(s)
    requires InodeOk(s'.disk, w)
    ensures ContentsOf(s') == ContentsOf(s)[w := Content(s'.disk, w)]
  {
    ModelledFacts(s);
    ModelledFacts(s');
    hide Modelled, Live;
  }

  /** The whole effect of file_write_at. */
  ghost predicate Written(s: Fs, s': Fs, f: nat, off: nat, data: Bytes) {
    && Modelled(s) && Modelled(s') && s'.freeMap == s.freeMap && Accounted(s, s') && f in ModelOf(s).handles
    && CanWrite(ModelOf(s), ModelOf(s).handles[f].file, off, data)
    && ModelOf(s') == Write(ModelOf(s), ModelOf(s).handles[f].file, off, data)
  }

  lemma WrittenParts(s: Fs, s': Fs, f: nat, off: nat, data: Bytes)
    requires Written(s, s', f, off, data)
    ensures Modelled(s) && Modelled(s') && f in ModelOf(s).handles && s'.freeMap == s.freeMap
    ensures CanWrite(ModelOf(s), ModelOf(s).handles[f].file, off, data)
    ensures ModelOf(s') == Write(ModelOf(s), ModelOf(s).handles[f].file, off, data)
  {
  }

  lemma WrittenIs(s: Fs, s': Fs, f: nat, off: nat, data: Bytes)
    requires Ok(s, multiset{}) && f in s.files && f != 0 && s.files[f].inode in s.inodes && DiskOk(s.disk)
    requires var node := s.inodes[s.files[f].inode];
             && (data == [] || off + |data| <= node.data.length)
             && s' == s.(disk := Overwrite(s.disk, 512 * node.data.start + off, data))
    ensures Ok(s', multiset{}) && Written(s, s', f, off, data)
  {
    hide StorageOk, TablesOk, Live, Content, Overwrite;
    HandleFacts(s, f);
    var w := s.inodes[s.files[f].inode].sector;
    if data == [] {
      OverwriteNothing(s.disk, 512 * Desc(s.disk, w).start + off);
      AccountedSame(s, s');
    } else {
      assert |ModelOf(s).contents[w]| == Desc(s.disk, w).length by { ContentLength(s.disk, w); }
      WriteModel(s, w, off, data);
    }
  }

  lemma ContentLength(d: Disk, w: nat)
    requires DiskOk(d) && InodeOk(d, w)
    ensures |Content(d, w)| == Desc(d, w).length
  {
  }

  // ----- closing -----

  /** The whole effect of file_close. */
  ghost predicate Closed(s: Fs, s': Fs, h: nat) {
    && Modelled(s) && Modelled(s') && h in ModelOf(s).handles && ModelOf(s') == Close(ModelOf(s), h)
    && (if NeededWithout(ModelOf(s), h) then s'.freeMap == s.freeMap else Released(s, s', ModelOf(s).handles[h].file))
    && Accounted(s, s')
  }

  /** The file has a name or another handle. */
  predicate NeededWithout(m: Model, h: nat)
    requires h in m.handles
  {
    m.handles[h].file in m.names.Values || IsOpen(m.(handles := m.handles - {h}), m.handles[h].file)
  }

  lemma LastReference(s: Fs, id: nat)
    requires Ok(s, multiset{id}) && Modelled(s) && id in s.inodes && s.inodes[id].sector !in {FREE_MAP_SECTOR, ROOT_DIR_SECTOR}
    ensures s.inodes[id].openCnt == 1 <==> !IsOpen(ModelOf(s), s.inodes[id].sector)
    ensures s.inodes[id].removed <==> s.inodes[id].sector !in ModelOf(s).names.Values
  {
    hide StorageOk, ContentsOf, NamesOf, Entries, TablesOk, DirOk, Layout, SystemFilesOk, Faithful, HandlesIn, Named, HasInodes, Live;
    StorageFacts(s);
    OpenInodeFacts(s, id);
    NamedAreValues(Entries(s));
    ModelParts(s);
    LastHandle(s, id);
  }

  lemma ModelParts(s: Fs)
    requires Modelled(s)
    ensures HasInodes(s) && DiskOk(s.disk) && InodeOk(s.disk, ROOT_DIR_SECTOR)
    ensures ModelOf(s).names == NamesOf(Entries(s)) && ModelOf(s).handles == HandlesIn(s)
  {
  }

  lemma LastHandle(s: Fs, id: nat)
    requires TablesOk(s, multiset{id}) && id in s.inodes && HasInodes(s) && s.inodes[id].sector != FREE_MAP_SECTOR
    ensures s.inodes[id].openCnt == 1 <==> !exists h :: h in HandlesIn(s) && HandlesIn(s)[h].file == s.inodes[id].sector
  {
    var file := s.inodes[id].sector;
    assert CountOk(s.files, id, s.inodes[id], multiset{id});
    if s.inodes[id].openCnt != 1 {
      assert HandlesOf(s.files, id) != {};
      var f :| f in HandlesOf(s.files, id);
      assert f in HandlesIn(s) && HandlesIn(s)[f].file == file;
    }
    if h :| h in HandlesIn(s) && HandlesIn(s)[h].file == file {
      assert s.inodes[s.files[h].inode].sector == file;
      assert h in HandlesOf(s.files, id);
    }
  }

  /** inode_close, in terms of the model. */
  lemma ClosedModel(s: Fs, s': Fs, id: nat)
    requires Ok(s, multiset{id}) && Modelled(s) && id in s.inodes && s.inodes[id].sector !in {FREE_MAP_SECTOR, ROOT_DIR_SECTOR}
    requires ClosedInode(s, s', s.inodes[id]) && Modelled(s') && s'.files == s.files && Grows(s'.inodes, s.inodes)
    ensures var file, m := s.inodes[id].sector, ModelOf(s);
            var kept := file in m.names.Values || IsOpen(m, file);
            && ModelOf(s') == (if kept then m else m.(contents := m.contents - {file}))
            && (if kept then s'.freeMap == s.freeMap else Released(s, s', file)) && Accounted(s, s')
  {
    hide StorageOk, TablesOk, Live, SameFiles, Modelled, HasInodes, ContentsOf, NamesOf;
    LastReference(s, id);
    ModelledFacts(s);
    ModelledFacts(s');
    SameHandles(s, s');
    ClosedFacts(s, s', s.inodes[id]);
    FewerSame(s, s', Live(s'), Live(s') - {ROOT_DIR_SECTOR});
    FewerContents(s, s');
    OpenInodeFacts(s, id);
    AccountedClosed(s, s', s.inodes[id]);
  }

  /** Only the tables of open inodes and files changed. */
  ghost predicate SameStorage(s: Fs, s': Fs) {
    StorageOk(s) && StorageOk(s') && s'.disk == s.disk && s'.freeMap == s.freeMap && Live(s') == Live(s)
  }

  lemma SameStorageAccounted(s: Fs, s': Fs)
    requires SameStorage(s, s')
    ensures Accounted(s, s') && Live(s') == Live(s)
  {
    AccountedSame(s, s');
  }

  lemma CloseComposes(m: Model, m1: Model, m2: Model, m3: Model, f: nat)
    requires f in m.handles && m1 == Deny(m, f, false) && m2 == m1.(handles := m1.handles - {f})
    requires var file := m.handles[f].file;
             m3 == if file in m2.names.Values || IsOpen(m2, file) then m2 else m2.(contents := m2.contents - {file})
    ensures m3 == Close(m, f) && m2 == m.(handles := m.handles - {f})
  {
    assert m2.handles == m.handles - {f};
  }

  lemma ReleasedSame(s: Fs, s2: Fs, s3: Fs, file: nat)
    requires Released(s2, s3, file) && s2.disk == s.disk && s2.freeMap == s.freeMap
    ensures Released(s, s3, file)
  {
  }

  lemma ClosedIs(s: Fs, s1: Fs, s2: Fs, s3: Fs, f: nat)
    requires Modelled(s) && Modelled(s1) && Modelled(s2) && Modelled(s3) && f in ModelOf(s).handles && f in ModelOf(s1).handles
    requires ModelOf(s1) == Deny(ModelOf(s), f, false) && SameStorage(s, s1) && SameStorage(s1, s2)
    requires ModelOf(s2) == ModelOf(s1).(handles := ModelOf(s1).handles - {f})
    requires var file, m := ModelOf(s).handles[f].file, ModelOf(s2);
             var kept := file in m.names.Values || IsOpen(m, file);
             && ModelOf(s3) == (if kept then m else m.(contents := m.contents - {file}))
             && if kept then s3.freeMap == s2.freeMap else Released(s2, s3, file)
    requires Accounted(s2, s3)
    ensures Closed(s, s3, f)
  {
    hide ModelOf, Modelled, StorageOk, Live, Accounted, Released, IsOpen, SameStorage, Close, Deny;
    CloseComposes(ModelOf(s), ModelOf(s1), ModelOf(s2), ModelOf(s3), f);
    SameStorageTrans(s, s1, s2);
    SameStorageAccounted(s, s2);
    AccountedTrans(s, s2, s3);
    if !NeededWithout(ModelOf(s), f) { ReleasedSame(s, s2, s3, ModelOf(s).handles[f].file); }
  }

  lemma SameStorageTrans(a: Fs, b: Fs, c: Fs)
    requires SameStorage(a, b) && SameStorage(b, c)
    ensures SameStorage(a, c)
    ensures a.disk == b.disk == c.disk && a.freeMap == b.freeMap == c.freeMap
    ensures DiskOk(a.disk) && InodeOk(a.disk, ROOT_DIR_SECTOR)
  {
  }

  lemma SameDeny(m: Model, h: nat)
    requires h in m.handles
    ensures Deny(m, h, m.handles[h].denyWrite) == m
  {
  }

  lemma SameModelIs(s: Fs, s': Fs)
    requires SameModel(s, s')
    ensures Modelled(s) && Modelled(s') && ModelOf(s') == ModelOf(s)
  {
  }

  lemma ReopenedModel(s: Fs, s': Fs, id: nat, q: multiset<nat>)
    requires Ok(s, multiset{}) && Ok(s', q) && id in s.inodes && s'.files == s.files && s'.disk == s.disk
    requires s'.inodes == s.inodes[id := s.inodes[id].(openCnt := s.inodes[id].openCnt + 1)]
    requires Live(s') == Live(s) && Entries(s') == Entries(s)
    ensures SameModel(s, s')
  {
    hide StorageOk, TablesOk, Live;
    OkIsModelled(s, multiset{});
    OkIsModelled(s', q);
    HandlesOnly(s, s');
    SameHandles(s, s');
  }

  /** A read returns the longest part of the request that the file covers, or less of it when
      no bounce buffer can be had. */
  ghost predicate ReadResult(m: Model, h: nat, size: int, offset: nat, bounceOk: bool, data: Bytes) {
    && h in m.handles && m.handles[h].file in m.contents
    && var c := m.contents[m.handles[h].file];
       && |data| == Moved(|c|, size, offset, bounceOk)
       && (data != [] ==> data == c[offset..offset + |data|])
  }

  /** The whole effect of file_read. */
  ghost predicate ReadOn(s: Fs, s': Fs, f: nat, size: int, bounceOk: bool, data: Bytes) {
    && Modelled(s) && Modelled(s') && SameStorage(s, s') && f in ModelOf(s).handles
    && var m := ModelOf(s); var pos := m.handles[f].pos;
       pos >= 0 && ReadResult(m, f, size, pos, bounceOk, data) && ModelOf(s') == Seek(m, f, pos + |data|)
  }

  /** How much is written: nothing while writing to the file is denied. */
  ghost predicate WriteCount(m: Model, h: nat, size: int, offset: nat, bounceOk: bool, n: nat) {
    && h in m.handles && m.handles[h].file in m.contents
    && var c := m.contents[m.handles[h].file];
       && n == if WritesDenied(m, m.handles[h].file) then 0 else Moved(|c|, size, offset, bounceOk)
  }

  lemma SelfStorage(s: Fs)
    requires Modelled(s)
    ensures SameStorage(s, s)
  {
  }

  /** The whole effect of file_reopen. */
  ghost predicate Reopened(s: Fs, s': Fs, f: nat, h: nat) {
    && Modelled(s) && Modelled(s') && f in ModelOf(s).handles && h !in ModelOf(s).handles
    && ModelOf(s') == Open(ModelOf(s), ModelOf(s).handles[f].file, h) && Accounted(s, s')
  }

  lemma ReopenedIs(s: Fs, s1: Fs, s2: Fs, f: nat, h: nat, file: nat)
    requires SameModel(s, s1) && Modelled(s2) && f in ModelOf(s).handles && h !in ModelOf(s1).handles
    requires file == ModelOf(s).handles[f].file
    requires s1.freeMap == s.freeMap == s2.freeMap && s2.disk == s1.disk && Live(s2) == Live(s1)
    requires ModelOf(s2) == Open(ModelOf(s1), file, h)
    ensures Reopened(s, s2, f, h)
  {
    hide ModelOf, StorageOk, Live, HasInodes;
    ModelledFacts(s);
    ModelledFacts(s1);
    ModelledFacts(s2);
    AccountedModel(s, s1);
    AccountedSame(s1, s2);
    AccountedTrans(s, s1, s2);
  }

  /** The whole effect of file_write. */
  ghost predicate WrittenOn(s: Fs, s': Fs, f: nat, data: Bytes) {
    && Modelled(s) && Modelled(s') && f in ModelOf(s).handles && Accounted(s, s')
    && var m := ModelOf(s); var h := m.handles[f];
       h.pos >= 0 && CanWrite(m, h.file, h.pos, data) && ModelOf(s') == Seek(Write(m, h.file, h.pos, data), f, h.pos + |data|)
  }

  lemma WrittenOnIs(s: Fs, s1: Fs, s2: Fs, f: nat, data: Bytes)
    requires Modelled(s) && f in ModelOf(s).handles && ModelOf(s).handles[f].pos >= 0 && Modelled(s2)
    requires Written(s, s1, f, ModelOf(s).handles[f].pos, data) && SameStorage(s1, s2) && f in ModelOf(s1).handles
    requires ModelOf(s2) == Seek(ModelOf(s1), f, ModelOf(s).handles[f].pos + |data|)
    ensures WrittenOn(s, s2, f, data)
  {
    hide ModelOf, StorageOk, Live, HasInodes, SameStorage, Accounted, Modelled, Write, Seek;
    SameStorageAccounted(s1, s2);
    LiveSame(s1, s2);
    AccountedTrans(s, s1, s2);
  }

  lemma LiveSame(s: Fs, s': Fs)
    requires SameStorage(s, s')
    ensures StorageOk(s) && StorageOk(s') && DiskOk(s.disk) && InodeOk(s.disk, ROOT_DIR_SECTOR)
    ensures DiskOk(s'.disk) && InodeOk(s'.disk, ROOT_DIR_SECTOR) && Live(s') == Live(s)
  {
  }
}
