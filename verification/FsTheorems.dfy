/** What holds of the file system over whole runs of its operations. */
module FsTheorems {
  import opened FsLayout
  import opened FsDevice
  import opened FsInvariant
  import opened FsLemmas
  import opened Bitmaps
  import opened FsEffects
  import opened FsModel
  import opened FsFormat

  // ----- single states -----

  ghost function FilesWithHandles(m: Model): set<nat> { set h | h in m.handles :: m.handles[h].file }

  /** Different names stand for different files, and the files that exist are exactly those
      with a name or a handle. */
  lemma ModelIsConsistent(s: Fs)
    requires Ok(s, multiset{}) && Modelled(s)
    ensures forall n1, n2 | n1 in ModelOf(s).names && n2 in ModelOf(s).names && ModelOf(s).names[n1] == ModelOf(s).names[n2] :: n1 == n2
    ensures forall n | n in ModelOf(s).names :: 1 <= |n| <= NAME_MAX
    ensures ModelOf(s).contents.Keys == ModelOf(s).names.Values + FilesWithHandles(ModelOf(s))
  {
    hide StorageOk, TablesOk, Layout, SystemFilesOk, Modelled, Live, NamesOf, DirOk, Faithful, HandlesIn, Named, OpenSectors, InodeOk;
    StorageFacts(s);
    ModelParts(s);
    NamesAreUnique(Entries(s));
    NamedAreValues(Entries(s));
    FilesAre(s);
    HandlesAre(s);
  }

  lemma NamesAreUnique(es: seq<Entry>)
    requires DirOk(es)
    ensures forall n1, n2 | n1 in NamesOf(es) && n2 in NamesOf(es) && NamesOf(es)[n1] == NamesOf(es)[n2] :: n1 == n2
    ensures forall n | n in NamesOf(es) :: 1 <= |n| <= NAME_MAX
  {
    forall n1, n2 | n1 in NamesOf(es) && n2 in NamesOf(es) && NamesOf(es)[n1] == NamesOf(es)[n2] ensures n1 == n2 {
      assert SlotOf(es, n1) == SlotOf(es, n2);
    }
    forall n | n in NamesOf(es) ensures 1 <= |n| <= NAME_MAX { assert ValidEntry(es[SlotOf(es, n)]); }
  }

  lemma FilesAre(s: Fs)
    requires Modelled(s)
    ensures DiskOk(s.disk) && InodeOk(s.disk, ROOT_DIR_SECTOR)
    ensures ModelOf(s).contents.Keys == Named(Entries(s)) + (OpenSectors(s.inodes) - {FREE_MAP_SECTOR, ROOT_DIR_SECTOR})
  {
    hide StorageOk, Named, NamesOf, HasInodes, Layout, DirOk, Faithful, OpenSectors, SystemFilesOk, HandlesIn;
    ModelledFacts(s);
    StorageFacts(s);
    NamedNotSystem(Entries(s));
    assert ModelOf(s).contents.Keys == FileSectors(s);
  }

  lemma NamedNotSystem(es: seq<Entry>)
    requires DirOk(es)
    ensures FREE_MAP_SECTOR !in Named(es) && ROOT_DIR_SECTOR !in Named(es)
  {
    forall x | x in Named(es) ensures x != FREE_MAP_SECTOR && x != ROOT_DIR_SECTOR {
      var j: nat :| j < |es| && InUse(es, j) && es[j].sector == x;
      EntryIsValid(es, j);
    }
  }

  lemma HandlesAre(s: Fs)
    requires TablesOk(s, multiset{}) && HasInodes(s)
    ensures (set h | h in HandlesIn(s) :: HandlesIn(s)[h].file) == OpenSectors(s.inodes) - {FREE_MAP_SECTOR, ROOT_DIR_SECTOR}
  {
    var files := set h | h in HandlesIn(s) :: HandlesIn(s)[h].file;
    forall x | x in OpenSectors(s.inodes) - {FREE_MAP_SECTOR, ROOT_DIR_SECTOR} ensures x in files {
      var i :| i in s.inodes && s.inodes[i].sector == x;
      assert CountOk(s.files, i, s.inodes[i], multiset{});
      assert HandlesOf(s.files, i) != {};
      var f :| f in HandlesOf(s.files, i);
      assert f in HandlesIn(s) && HandlesIn(s)[f].file == x;
    }
    forall x | x in files ensures x in OpenSectors(s.inodes) - {FREE_MAP_SECTOR, ROOT_DIR_SECTOR} {
      var h :| h in HandlesIn(s) && HandlesIn(s)[h].file == x;
      assert s.files[h].inode in s.inodes;
    }
  }

  lemma LiveIs(s: Fs)
    requires Modelled(s)
    ensures DiskOk(s.disk) && InodeOk(s.disk, ROOT_DIR_SECTOR)
    ensures Live(s) == {FREE_MAP_SECTOR, ROOT_DIR_SECTOR} + ModelOf(s).contents.Keys
  {
    ModelledFacts(s);
  }

  /** The sectors of a live file are marked and belong to no other. */
  lemma ExtentsAreDisjoint(s: Fs, a: nat, b: nat, x: nat)
    requires StorageOk(s) && a in Live(s) && b in Live(s) && x < |s.disk| && Owns(s.disk, a, x)
    ensures s.freeMap[x] && (a != b ==> !Owns(s.disk, b, x))
  {
    SystemFacts(s);
  }

  // ----- runs -----

  datatype Event =
    | Creates(name: Name, file: nat, size: nat)
    | Opens(name: Name, h: nat)
    | Reopens(f: nat, h: nat)
    | Removes(name: Name)
    | Closes(h: nat)
    | Writes(h: nat, off: nat, asked: int, bounceOk: bool, data: Bytes)      // file_write_at, and what it wrote
    | WritesOn(h: nat, asked: int, bounceOk: bool, data: Bytes)
    | Reads(h: nat, asked: int, bounceOk: bool, data: Bytes)                 // file_read, and what it returned
    | Seeks(h: nat, pos: nat)
    | Denies(h: nat, deny: bool)     // file_deny_write, file_allow_write
    | Fails                          // an operation that gave up and changed nothing
    | Leaks(name: Name, size: nat, b: Bounce)    // a filesys_create that dir_add turned down

  ghost predicate Did(s: Fs, e: Event, s': Fs) {
    && Ok(s, multiset{}) && Ok(s', multiset{}) && Modelled(s) && Modelled(s')
    && match e
       case Creates(name, file, size) => Created(s, s', name, file, size)
       case Opens(name, h) => Opened(s, s', name, h)
       case Reopens(f, h) => Reopened(s, s', f, h)
       case Removes(name) => Removed(s, s', name)
       case Closes(h) => Closed(s, s', h)
       case Writes(h, off, size, bounceOk, data) => Written(s, s', h, off, data) && WriteCount(ModelOf(s), h, size, off, bounceOk, |data|)
       case WritesOn(h, size, bounceOk, data) =>
         WrittenOn(s, s', h, data) && WriteCount(ModelOf(s), h, size, ModelOf(s).handles[h].pos, bounceOk, |data|)
       case Reads(h, size, bounceOk, data) => ReadOn(s, s', h, size, bounceOk, data)
       case Seeks(h, pos) => SameStorage(s, s') && h in ModelOf(s).handles && ModelOf(s') == Seek(ModelOf(s), h, pos)
       case Denies(h, deny) => SameStorage(s, s') && h in ModelOf(s).handles && ModelOf(s') == Deny(ModelOf(s), h, deny)
       case Fails => SameModel(s, s') && s'.freeMap == s.freeMap
       case Leaks(name, size, b) => SameModel(s, s') && !DirAccepts(s, name, b) && size > 0 && Leaked(s.freeMap, s'.freeMap, SectorsFor(size))
  }

  ghost predicate Run(ss: seq<Fs>, es: seq<Event>) {
    |ss| == |es| + 1 && forall k | 0 <= k < |es| :: Did(ss[k], es[k], ss[k + 1])
  }

  /** Exactly the creations that dir_add turns down lose sectors. */
  lemma StepAccounts(s: Fs, e: Event, s': Fs)
    requires Did(s, e, s')
    ensures Accounted(s, s') <==> !e.Leaks?
  {
    hide Ok, Modelled, ModelOf, Accounted, SameModel, SameStorage, Leaked, DirAccepts;
    match e
    case Fails => AccountedModel(s, s');
    case Reads(_, _, _, _) => SameStorageAccounted(s, s');
    case Seeks(_, _) => SameStorageAccounted(s, s');
    case Denies(_, _) => SameStorageAccounted(s, s');
    case Leaks(_, size, _) => LeakIsLoss(s, s', size);
    case _ =>
  }

  /** The sectors meant for the contents belong to nobody. */
  lemma LeakIsLoss(s: Fs, s': Fs, size: nat)
    requires SameModel(s, s') && size > 0 && Leaked(s.freeMap, s'.freeMap, SectorsFor(size))
    ensures !Accounted(s, s')
  {
    var x: nat :| AllFree(s.freeMap, x, SectorsFor(size)) && s'.freeMap == SetRange(s.freeMap, x, SectorsFor(size), true);
    LeakedIsSpare(s, s', x);
    assert !s.freeMap[x] && s'.freeMap[x];
  }

  lemma LeakedIsSpare(s: Fs, s': Fs, x: nat)
    requires SameModel(s, s') && x < |s.freeMap| && !s.freeMap[x] && |s'.freeMap| == |s.freeMap| && s'.freeMap[x]
    ensures !Spare(s, x) && Spare(s', x)
  {
    ModelledFacts(s);
    ModelledFacts(s');
    SystemFacts(s);
    SameOwners(s, s', Live(s));
    forall a | a in Live(s') ensures !Owns(s'.disk, a, x) {
      if Owns(s.disk, a, x) { ExtentsAreDisjoint(s, a, a, x); }
    }
  }

  /** Sectors are lost only when the directory refuses a new file. */
  lemma {:induction false} NothingIsLost(ss: seq<Fs>, es: seq<Event>, x: nat)
    requires Run(ss, es) && forall e | e in es :: !e.Leaks?
    ensures Spare(ss[0], x) <==> Spare(ss[|es|], x)
    decreases |es|
  {
    hide Did, Spare, Accounted;
    if es != [] {
      RunPrefix(ss, es);
      NothingIsLost(ss[..|es|], es[..|es| - 1], x);
      StepAccounts(ss[|es| - 1], es[|es| - 1], ss[|es|]);
      SpareSame(ss[|es| - 1], ss[|es|], x);
    }
  }

  lemma RunPrefix(ss: seq<Fs>, es: seq<Event>)
    requires Run(ss, es) && es != []
    ensures Run(ss[..|es|], es[..|es| - 1]) && Did(ss[|es| - 1], es[|es| - 1], ss[|es|])
    ensures forall e | e in es[..|es| - 1] :: e in es
  {
    hide Did;
  }

  lemma SpareSame(s: Fs, s': Fs, x: nat)
    requires Accounted(s, s')
    ensures Spare(s, x) <==> Spare(s', x)
  {
  }

  /** So after formatting, and as long as no create is refused, the free map marks exactly
      the sectors of the live files. */
  lemma FreeMapIsExact(ss: seq<Fs>, es: seq<Event>, x: nat)
    requires Run(ss, es) && (forall e | e in es :: !e.Leaks?) && StorageOk(ss[|es|])
    requires !Spare(ss[0], x) && x < |ss[|es|].disk|
    ensures var s := ss[|es|];
            && DiskOk(s.disk) && InodeOk(s.disk, ROOT_DIR_SECTOR) && |s.freeMap| == |s.disk| && (forall a | a in Live(s) :: a < |s.disk|)
            && (s.freeMap[x] <==> exists a :: a in Live(s) && Owns(s.disk, a, x))
  {
    NothingIsLost(ss, es, x);
    var s := ss[|es|];
    SystemFacts(s);
    if a :| a in Live(s) && Owns(s.disk, a, x) { ExtentsAreDisjoint(s, a, a, x); }
    hide Did, StorageOk, Live, Owns;
  }

  /** In a run that starts with a formatted device and in which no creation is turned down, the
      free map marks exactly the sectors of the live files. */
  lemma ExactAfterFormat(d: Disk, x: nat, y: nat, id: nat, ss: seq<Fs>, es: seq<Event>, z: nat)
    requires Plan(d, x, y) && Run(ss, es) && ss[0] == FormattedFs(d, x, y, id) && forall e | e in es :: !e.Leaks?
    requires StorageOk(ss[|es|]) && z < |ss[|es|].disk|
    ensures var s := ss[|es|];
            && DiskOk(s.disk) && InodeOk(s.disk, ROOT_DIR_SECTOR) && |s.freeMap| == |s.disk| && (forall a | a in Live(s) :: a < |s.disk|)
            && (s.freeMap[z] <==> exists a :: a in Live(s) && Owns(s.disk, a, z))
  {
    FormatIsEmpty(d, x, y, id);
    hide Run, StorageOk, Live, Owns, FormattedFs, Spare;
    FreeMapIsExact(ss, es, z);
  }

  /** On a freshly formatted device of eight sectors a creation of one byte gets as far as dir_add,
      which never accepts the empty name: the creation leaks. */
  lemma EmptyNameLeaks(b: Bounce)
    ensures var d := seq(8, i => Zeros(512));
            && Plan(d, 2, 3) && Ok(FormattedFs(d, 2, 3, 0), multiset{}) && !DirAccepts(FormattedFs(d, 2, 3, 0), [], b)
            && Reaches(FormattedFs(d, 2, 3, 0).freeMap, 1, true, k => true)
  {
    var d := seq(8, i => Zeros(512));
    EightSectors(d);
    RoomForOne();
    FormatIsEmpty(d, 2, 3, 0);
    assert FormattedFs(d, 2, 3, 0).freeMap == Map2(d, 2, 3);
    hide FormattedFs, Map2, Map1, Ok, Modelled, Plan, Reaches;
  }

  lemma EightSectors(d: Disk)
    requires |d| == 8 && DiskOk(d)
    ensures Plan(d, 2, 3) && Map2(d, 2, 3) == [true, true, true, true, false, false, false, false]
  {
    assert MapBytes(8) == 4 && SectorsFor(4) == 1;
    assert Map1(d, 2) == [true, true, true, false, false, false, false, false];
  }

  lemma RoomForOne()
    ensures Reaches([true, true, true, true, false, false, false, false], 1, true, k => true)
  {
    var m := [true, true, true, true, false, false, false, false];
    var m1 := SetRange(m, 4, 1, true);
    assert m1[4] && !m1[5];
    assert AllFree(m, 4, 1) && AllFree(m1, 5, 1) && SectorsFor(1) == 1;
    forall y: nat | y < 4 ensures !AllFree(m, y, 1) { assert m[y]; }
    NoSpaceIs(m, 4, 1);
  }

  // ----- contents -----

  /** The event does not write to the file. */
  ghost predicate Spares(s: Fs, e: Event, file: nat)
    requires Modelled(s)
  {
    (e.Writes? || e.WritesOn?) && e.h in ModelOf(s).handles ==> ModelOf(s).handles[e.h].file != file
  }

  ghost predicate Holds(s: Fs, h: nat, file: nat)
    requires Modelled(s)
  {
    h in ModelOf(s).handles && ModelOf(s).handles[h].file == file
  }

  lemma StepKeepsHeldFile(s: Fs, e: Event, s': Fs, h: nat, file: nat)
    requires Did(s, e, s') && Holds(s, h, file) && Holds(s', h, file) && Spares(s, e, file) && file in ModelOf(s).contents
    ensures file in ModelOf(s').contents && ModelOf(s').contents[file] == ModelOf(s).contents[file]
  {
    hide Ok, Modelled, ModelOf, Accounted, Claimed, Released, Leaked;
    match e
    case Removes(name) => assert IsOpen(ModelOf(s), file);
    case Closes(h2) => assert h != h2; assert h in ModelOf(s).(handles := ModelOf(s).handles - {h2}).handles;
    case Fails => SameModelIs(s, s');
    case Leaks(_, _, _) => SameModelIs(s, s');
    case _ =>
  }

  ghost predicate HeldThroughout(ss: seq<Fs>, es: seq<Event>, h: nat, file: nat) {
    && Run(ss, es) && (forall k | 0 <= k < |ss| :: Modelled(ss[k]) && Holds(ss[k], h, file))
    && forall k | 0 <= k < |es| :: Spares(ss[k], es[k], file)
  }

  /** While a handle stays open, its file keeps its contents, whatever happens to its name and
      to other files, until somebody writes to it. */
  lemma {:induction false} HeldFileIsKept(ss: seq<Fs>, es: seq<Event>, h: nat, file: nat)
    requires HeldThroughout(ss, es, h, file) && file in ModelOf(ss[0]).contents
    ensures file in ModelOf(ss[|es|]).contents && ModelOf(ss[|es|]).contents[file] == ModelOf(ss[0]).contents[file]
    decreases |es|
  {
    hide Did, Modelled, ModelOf;
    if es != [] {
      var n := |es| - 1;
      assert HeldThroughout(ss[..|es|], es[..n], h, file);
      HeldFileIsKept(ss[..|es|], es[..n], h, file);
      assert Holds(ss[n], h, file) && Holds(ss[n + 1], h, file);
      StepKeepsHeldFile(ss[n], es[n], ss[n + 1], h, file);
    }
  }

  // ----- creating and removing cancel out -----

  lemma SameFreeMap(s: Fs, s': Fs)
    requires Accounted(s, s') && Live(s') == Live(s)
    ensures s'.freeMap == s.freeMap
  {
    SystemFacts(s);
    SystemFacts(s');
    assert Live(s) * Live(s') == Live(s);
    SameOwners(s, s', Live(s));
    forall x | 0 <= x < |s.freeMap| ensures s'.freeMap[x] == s.freeMap[x] {
      OwnedOrSpare(s, x);
      OwnedOrSpare(s', x);
      hide StorageOk, Live, Owns, Spare;
    }
  }

  lemma OwnedOrSpare(s: Fs, x: nat)
    requires StorageOk(s) && x < |s.freeMap|
    ensures DiskOk(s.disk) && InodeOk(s.disk, ROOT_DIR_SECTOR) && forall a | a in Live(s) :: a < |s.disk|
    ensures s.freeMap[x] <==> Spare(s, x) || exists a :: a in Live(s) && Owns(s.disk, a, x)
  {
    SystemFacts(s);
    if a :| a in Live(s) && Owns(s.disk, a, x) { ExtentsAreDisjoint(s, a, a, x); }
    hide StorageOk, Live, Owns;
  }

  /** Creating a file, opening it, removing its name and closing the last handle leaves
      every name, file and handle and the whole free map as they were. */
  lemma CreateOpenRemoveClose(s: Fs, s1: Fs, s2: Fs, s3: Fs, s4: Fs, name: Name, file: nat, size: nat, h: nat)
    requires Did(s, Creates(name, file, size), s1) && Did(s1, Opens(name, h), s2)
    requires Did(s2, Removes(name), s3) && Did(s3, Closes(h), s4)
    ensures Modelled(s) && Modelled(s4) && ModelOf(s4) == ModelOf(s) && s4.freeMap == s.freeMap
  {
    hide Ok, Modelled, ModelOf, Accounted, Claimed, Released, Live, StorageOk;
    Unopened(s, file);
    ModelsReturn(ModelOf(s), ModelOf(s1), ModelOf(s2), ModelOf(s3), ModelOf(s4), name, file, size, h);
    LiveIs(s);
    LiveIs(s1);
    LiveIs(s2);
    LiveIs(s3);
    LiveIs(s4);
    AccountedTrans(s, s1, s2);
    AccountedTrans(s, s2, s3);
    AccountedTrans(s, s3, s4);
    SameFreeMap(s, s4);
  }

  /** Removing a new file that nobody opened undoes its creation at once. */
  lemma CreateRemove(s: Fs, s1: Fs, s2: Fs, name: Name, file: nat, size: nat)
    requires Did(s, Creates(name, file, size), s1) && Did(s1, Removes(name), s2)
    ensures Modelled(s) && Modelled(s2) && ModelOf(s2) == ModelOf(s) && s2.freeMap == s.freeMap
  {
    hide Ok, Modelled, ModelOf, Accounted, Claimed, Released, Live, StorageOk;
    Unopened(s, file);
    assert !IsOpen(ModelOf(s1), file);
    CreateRemoveModels(ModelOf(s), name, file, size);
    LiveIs(s);
    LiveIs(s1);
    LiveIs(s2);
    AccountedTrans(s, s1, s2);
    SameFreeMap(s, s2);
  }

  lemma CreateRemoveModels(m: Model, name: Name, file: nat, size: nat)
    requires name !in m.names && file !in m.contents && !IsOpen(Create(m, name, file, size), file)
    ensures Remove(Create(m, name, file, size), name) == m
  {
    assert m.names[name := file] - {name} == m.names;
    assert m.contents[file := Zeros(size)] - {file} == m.contents;
  }

  lemma Unopened(s: Fs, file: nat)
    requires Ok(s, multiset{}) && Modelled(s) && file !in ModelOf(s).contents
    ensures !IsOpen(ModelOf(s), file) && file !in ModelOf(s).names.Values
  {
    ModelIsConsistent(s);
    hide Ok, Modelled, ModelOf;
    assert forall h | h in ModelOf(s).handles :: ModelOf(s).handles[h].file in FilesWithHandles(ModelOf(s));
  }

  lemma ModelsReturn(m: Model, m1: Model, m2: Model, m3: Model, m4: Model, name: Name, file: nat, size: nat, h: nat)
    requires name !in m.names && file !in m.contents && !IsOpen(m, file) && file !in m.names.Values
    requires m1 == Create(m, name, file, size) && h !in m1.handles && m2 == Open(m1, file, h)
    requires name in m2.names && m3 == Remove(m2, name) && h in m3.handles && m4 == Close(m3, h)
    ensures m4 == m && m1.contents == m2.contents == m3.contents && m.contents.Keys <= m1.contents.Keys
  {
    assert m2.handles[h].file == file;
    assert IsOpen(m2, file);
    assert m3.names == m.names;
    assert m3.handles - {h} == m.handles;
    assert m3.contents - {file} == m.contents;
  }
}
