/** How each change of the disk, the free map and the directory affects ownership, contents
    and names. */
module FsLemmas {
  import opened FsLayout
  import opened FsDevice
  import opened FsInvariant

  // ----- writes inside one file -----

  /** The write of data at offset off of the file whose inode is in sector w. */
  function WriteFile(d: Disk, w: nat, off: nat, data: Bytes): Disk
    requires DiskOk(d) && InodeOk(d, w)
  {
    Overwrite(d, 512 * Desc(d, w).start + off, data)
  }

  function Splice(c: Bytes, off: nat, data: Bytes): Bytes
    requires off + |data| <= |c|
  {
    c[..off] + data + c[off + |data|..]
  }

  /** A write inside a file touches only data sectors of that file. */
  lemma WriteTouches(d: Disk, w: nat, off: nat, data: Bytes, x: nat)
    requires DiskOk(d) && InodeOk(d, w) && off + |data| <= Desc(d, w).length && x < |d| && !OwnsData(d, w, x)
    ensures WriteFile(d, w, off, data)[x] == d[x]
  {
    SectorUntouched(d, 512 * Desc(d, w).start + off, data, x);
  }

  lemma WriteKeepsInode(d: Disk, m: seq<bool>, live: set<nat>, w: nat, off: nat, data: Bytes, a: nat)
    requires Layout(d, m, live) && w in live && off + |data| <= Desc(d, w).length && a in live
    ensures WriteFile(d, w, off, data)[a] == d[a]
  {
    assert Owns(d, a, a) && InodeOk(d, a);
    assert w != a ==> !Owns(d, w, a);
    WriteTouches(d, w, off, data, a);
  }

  lemma WriteKeepsLayout(d: Disk, m: seq<bool>, live: set<nat>, w: nat, off: nat, data: Bytes)
    requires Layout(d, m, live) && w in live && off + |data| <= Desc(d, w).length
    ensures Layout(WriteFile(d, w, off, data), m, live)
  {
    var d' := WriteFile(d, w, off, data);
    forall a | a in live ensures d'[a] == d[a] { WriteKeepsInode(d, m, live, w, off, data, a); }
    SameInodesSameLayout(d, d', m, live);
  }

  lemma SameInodesSameLayout(d: Disk, d': Disk, m: seq<bool>, live: set<nat>)
    requires Layout(d, m, live) && DiskOk(d') && |d'| == |d|
    requires forall a | a in live :: d'[a] == d[a]
    ensures Layout(d', m, live)
  {
    forall a | a in live ensures InodeOk(d', a) { assert InodeOk(d, a); }
    forall a, x: nat | a in live && x < |d| ensures Owns(d', a, x) <==> Owns(d, a, x) { }
  }

  lemma WriteContents(d: Disk, m: seq<bool>, live: set<nat>, w: nat, off: nat, data: Bytes, a: nat)
    requires Layout(d, m, live) && w in live && off + |data| <= Desc(d, w).length && a in live
    ensures var d' := WriteFile(d, w, off, data);
            && DiskOk(d') && InodeOk(d', a) && Desc(d', a) == Desc(d, a)
            && Content(d', a) == if a == w then Splice(Content(d, w), off, data) else Content(d, a)
  {
    var d' := WriteFile(d, w, off, data);
    WriteKeepsInode(d, m, live, w, off, data, a);
    WriteKeepsLayout(d, m, live, w, off, data);
    if a == w {
      FileAfterWrite(d, Desc(d, w).start, Desc(d, w).length, off, data);
    } else {
      forall x: nat | x < |d| && OwnsData(d, a, x) ensures d'[x] == d[x] {
        assert Owns(d, a, x) && !Owns(d, w, x);
        WriteTouches(d, w, off, data, x);
      }
      SameData(d, d', a);
    }
  }

  lemma SameData(d: Disk, d': Disk, a: nat)
    requires DiskOk(d) && DiskOk(d') && |d| == |d'| && InodeOk(d, a) && d'[a] == d[a]
    requires forall x: nat | x < |d| && OwnsData(d, a, x) :: d'[x] == d[x]
    ensures InodeOk(d', a) && Content(d', a) == Content(d, a)
  {
    var start, length := Desc(d, a).start, Desc(d, a).length;
    assert Desc(d', a) == Desc(d, a);
    forall i: nat | 0 <= i < length ensures Content(d', a)[i] == Content(d, a)[i] {
      var x := start + i / 512;
      assert (512 * start + i) / 512 == x && OwnsData(d, a, x);
      assert Content(d', a)[i] == ByteAt(d', 512 * start + i) && Content(d, a)[i] == ByteAt(d, 512 * start + i);
    }
  }

  // ----- the free map -----

  lemma LayoutMap(d: Disk, m: seq<bool>, m': seq<bool>, live: set<nat>)
    requires Layout(d, m, live) && |m'| == |m|
    requires forall sec, x: nat | sec in live && x < |d| && Owns(d, sec, x) :: m'[x]
    ensures Layout(d, m', live)
  {
  }

  lemma LayoutSubset(d: Disk, m: seq<bool>, live: set<nat>, fewer: set<nat>)
    requires Layout(d, m, live) && fewer <= live
    ensures Layout(d, m, fewer)
  {
  }

  /** A new inode whose sectors are marked and belong to nobody joins the live ones. */
  lemma LayoutAdd(d: Disk, m: seq<bool>, live: set<nat>, sec: nat)
    requires Layout(d, m, live) && InodeOk(d, sec)
    requires forall x: nat | x < |d| && Owns(d, sec, x) :: m[x] && forall a | a in live :: !Owns(d, a, x)
    ensures Layout(d, m, live + {sec})
  {
  }

  // ----- changes of the whole state that keep every file -----

  /** If the disk keeps every live inode sector and the directory, the free map marks everything
      owned, and a free map that counts as saved is in its file, the storage is still in order. */
  lemma StorageFrame(s: Fs, s': Fs)
    requires StorageOk(s) && DiskOk(s'.disk) && |s'.disk| == |s.disk| == |s'.freeMap| && s'.inodes == s.inodes
    requires forall a | a in Live(s) :: s'.disk[a] == s.disk[a]
    requires InodeOk(s'.disk, ROOT_DIR_SECTOR) && Content(s'.disk, ROOT_DIR_SECTOR) == Content(s.disk, ROOT_DIR_SECTOR)
    requires s'.saved ==> InodeOk(s'.disk, FREE_MAP_SECTOR) && Content(s'.disk, FREE_MAP_SECTOR) == EncodeMap(s'.freeMap)
    requires forall sec, x: nat | sec in Live(s) && x < |s.disk| && Owns(s.disk, sec, x) :: s'.freeMap[x]
    ensures StorageOk(s') && Live(s') == Live(s) && Entries(s') == Entries(s)
  {
    LayoutMap(s.disk, s.freeMap, s'.freeMap, Live(s));
    SameInodesSameLayout(s.disk, s'.disk, s'.freeMap, Live(s));
    forall i | i in s.inodes ensures s.inodes[i].sector in Live(s) { }
  }

  /** Replacing the free map in memory, and the beginning of its file by data. */
  ghost function WithMap(s: Fs, m: seq<bool>, data: Bytes, saved: bool): Fs
    requires DiskOk(s.disk) && InodeOk(s.disk, FREE_MAP_SECTOR)
  {
    s.(freeMap := m, disk := WriteFile(s.disk, FREE_MAP_SECTOR, 0, data), saved := saved)
  }

  /** The live inodes other than the free map have the same extent and contents. */
  ghost predicate SameFiles(s: Fs, s': Fs, live: set<nat>)
    requires DiskOk(s.disk) && DiskOk(s'.disk)
  {
    |s'.disk| == |s.disk| &&
    forall a | a in live && InodeOk(s.disk, a) ::
      && s'.disk[a] == s.disk[a] && InodeOk(s'.disk, a)
      && (a != FREE_MAP_SECTOR ==> Content(s'.disk, a) == Content(s.disk, a))
  }

  /** The inodes in the sectors of live are the same on disk. */
  ghost predicate SameDescs(s: Fs, s': Fs, live: set<nat>) {
    |s'.disk| == |s.disk| && forall a | a in live && a < |s.disk| :: s'.disk[a] == s.disk[a]
  }

  lemma SameDescsTrans(a: Fs, b: Fs, c: Fs, live: set<nat>, fewer: set<nat>)
    requires SameDescs(a, b, live) && SameDescs(b, c, fewer)
    ensures SameDescs(a, c, live * fewer)
  {
  }

  lemma SameFilesDescs(s: Fs, s': Fs, live: set<nat>)
    requires DiskOk(s.disk) && DiskOk(s'.disk) && SameFiles(s, s', live) && forall a | a in live :: InodeOk(s.disk, a)
    ensures SameDescs(s, s', live)
  {
  }

  lemma MapChangeKeeps(s: Fs, m: seq<bool>, data: Bytes, saved: bool)
    requires StorageOk(s) && |m| == |s.freeMap| && |data| <= MapBytes(|m|) && (saved ==> data == EncodeMap(m))
    requires forall sec, x: nat | sec in Live(s) && x < |s.disk| && Owns(s.disk, sec, x) :: m[x]
    ensures var s' := WithMap(s, m, data, saved);
            StorageOk(s') && Live(s') == Live(s) && Entries(s') == Entries(s) && SameFiles(s, s', Live(s))
  {
    var s' := WithMap(s, m, data, saved);
    MapWriteContents(s, data);
    hide Layout, Live, Content, InodeOk, WriteFile;
    StorageFrame(s, s');
  }

  lemma MapWriteContents(s: Fs, data: Bytes)
    requires StorageOk(s) && |data| <= MapBytes(|s.freeMap|)
    ensures var d' := WriteFile(s.disk, FREE_MAP_SECTOR, 0, data);
            && DiskOk(d') && |d'| == |s.disk| && InodeOk(d', FREE_MAP_SECTOR) && FREE_MAP_SECTOR in Live(s)
            && Content(d', FREE_MAP_SECTOR) == Splice(Content(s.disk, FREE_MAP_SECTOR), 0, data)
            && (|data| == MapBytes(|s.freeMap|) ==> Content(d', FREE_MAP_SECTOR) == data)
            && forall a | a in Live(s) ::
                 && d'[a] == s.disk[a] && InodeOk(d', a) && InodeOk(s.disk, a)
                 && (a != FREE_MAP_SECTOR ==> Content(d', a) == Content(s.disk, a))
  {
    var d' := WriteFile(s.disk, FREE_MAP_SECTOR, 0, data);
    forall a | a in Live(s)
      ensures d'[a] == s.disk[a] && InodeOk(d', a)
      ensures Content(d', a) == if a == FREE_MAP_SECTOR then Splice(Content(s.disk, a), 0, data) else Content(s.disk, a)
    {
      WriteKeepsInode(s.disk, s.freeMap, Live(s), FREE_MAP_SECTOR, 0, data, a);
      WriteContents(s.disk, s.freeMap, Live(s), FREE_MAP_SECTOR, 0, data, a);
    }
  }

  /** A write to an ordinary file changes the contents of that file only. */
  lemma FileWriteKeeps(s: Fs, w: nat, off: nat, data: Bytes)
    requires StorageOk(s) && w in Live(s) && w != FREE_MAP_SECTOR && w != ROOT_DIR_SECTOR
    requires InodeOk(s.disk, w) && off + |data| <= Desc(s.disk, w).length
    ensures var s' := s.(disk := WriteFile(s.disk, w, off, data));
            && StorageOk(s') && Live(s') == Live(s) && Entries(s') == Entries(s)
            && SameFiles(s, s', Live(s) - {w}) && SameDescs(s, s', Live(s))
            && InodeOk(s'.disk, w) && Content(s'.disk, w) == Splice(Content(s.disk, w), off, data)
  {
    var s' := s.(disk := WriteFile(s.disk, w, off, data));
    forall a | a in Live(s)
      ensures s'.disk[a] == s.disk[a] && InodeOk(s'.disk, a)
      ensures Content(s'.disk, a) == if a == w then Splice(Content(s.disk, w), off, data) else Content(s.disk, a)
    {
      WriteKeepsInode(s.disk, s.freeMap, Live(s), w, off, data, a);
      WriteContents(s.disk, s.freeMap, Live(s), w, off, data, a);
    }
    StorageFrame(s, s');
  }

  /** Writing sectors that no live inode owns changes no file. */
  lemma LooseWriteKeeps(s: Fs, d: Disk)
    requires StorageOk(s) && DiskOk(d) && |d| == |s.disk|
    requires forall sec, x: nat | sec in Live(s) && x < |d| && Owns(s.disk, sec, x) :: d[x] == s.disk[x]
    ensures var s' := s.(disk := d);
            StorageOk(s') && Live(s') == Live(s) && Entries(s') == Entries(s) && SameFiles(s, s', Live(s))
  {
    forall a | a in Live(s) ensures d[a] == s.disk[a] && InodeOk(d, a) && Content(d, a) == Content(s.disk, a) {
      assert Owns(s.disk, a, a);
      forall x: nat | x < |d| && OwnsData(s.disk, a, x) ensures d[x] == s.disk[x] { assert Owns(s.disk, a, x); }
      SameData(s.disk, d, a);
    }
    StorageFrame(s, s.(disk := d));
  }

  // ----- the directory -----

  lemma EntriesAfterWrite(c: Bytes, j: nat, e: Entry)
    requires |c| % 20 == 0 && j < |c| / 20 && EntryOk(e)
    ensures DirEntries(Splice(c, 20 * j, EncodeEntry(e))) == DirEntries(c)[j := e]
  {
    var c' := Splice(c, 20 * j, EncodeEntry(e));
    EntryRoundTrip(e);
    forall k | 0 <= k < |c| / 20 ensures DirEntries(c')[k] == DirEntries(c)[j := e][k] {
      if k == j {
        assert c'[20 * k..20 * k + 20] == EncodeEntry(e);
      } else {
        assert c'[20 * k..20 * k + 20] == c[20 * k..20 * k + 20];
      }
    }
  }

  ghost function WithEntry(s: Fs, j: nat, e: Entry): Fs
    requires DiskOk(s.disk) && InodeOk(s.disk, ROOT_DIR_SECTOR) && EntryOk(e)
  {
    s.(disk := WriteFile(s.disk, ROOT_DIR_SECTOR, 20 * j, EncodeEntry(e)))
  }

  /** Writing directory slot j replaces that entry and changes no other file. */
  lemma EntryWriteEffect(s: Fs, j: nat, e: Entry)
    requires StorageOk(s) && j < DIR_ENTRIES && EntryOk(e)
    ensures var s' := WithEntry(s, j, e);
            && SystemFilesOk(s') && Entries(s') == Entries(s)[j := e]
            && SameFiles(s, s', Live(s) - {ROOT_DIR_SECTOR}) && Layout(s'.disk, s'.freeMap, Live(s))
            && forall a | a in Live(s) :: s'.disk[a] == s.disk[a]
  {
    hide StorageOk, Layout, DirOk, Live, DirEntries, Overwrite, EncodeEntry;
    StorageFacts(s);
    var s' := WithEntry(s, j, e);
    EntryWriteContents(s, j, e);
    SameInodesSameLayout(s.disk, s'.disk, s.freeMap, Live(s));
    EntryWriteSystem(s, j, e);
  }

  lemma EntryWriteSystem(s: Fs, j: nat, e: Entry)
    requires StorageOk(s) && j < DIR_ENTRIES && EntryOk(e)
    ensures var s' := WithEntry(s, j, e); SystemFilesOk(s') && Entries(s') == Entries(s)[j := e]
  {
    hide StorageOk, Layout, DirOk, DirEntries, Overwrite, EncodeEntry, InodeOk, Content, EncodeMap, Desc;
    StorageFacts(s);
    assert FREE_MAP_SECTOR in Live(s) && ROOT_DIR_SECTOR in Live(s);
    EntryWriteContents(s, j, e);
    RootDesc(s, WithEntry(s, j, e));
    assert Desc(WithEntry(s, j, e).disk, FREE_MAP_SECTOR) == Desc(s.disk, FREE_MAP_SECTOR) by { SameDesc(s.disk, WithEntry(s, j, e).disk, FREE_MAP_SECTOR); }
    EntriesAfterWrite(Content(s.disk, ROOT_DIR_SECTOR), j, e);
  }

  lemma SameDesc(d: Disk, d': Disk, a: nat)
    requires DiskOk(d) && DiskOk(d') && a < |d| == |d'| && d'[a] == d[a]
    ensures Desc(d', a) == Desc(d, a)
  {
  }

  lemma RootDesc(s: Fs, s': Fs)
    requires SystemFilesOk(s) && DiskOk(s'.disk) && |s'.disk| == |s.disk| && s'.disk[ROOT_DIR_SECTOR] == s.disk[ROOT_DIR_SECTOR]
    ensures Desc(s'.disk, ROOT_DIR_SECTOR) == Desc(s.disk, ROOT_DIR_SECTOR)
    ensures |Content(s.disk, ROOT_DIR_SECTOR)| == 20 * DIR_ENTRIES == Desc(s.disk, ROOT_DIR_SECTOR).length
  {
  }

  lemma EntryWriteContents(s: Fs, j: nat, e: Entry)
    requires StorageOk(s) && j < DIR_ENTRIES && EntryOk(e)
    ensures var d' := WithEntry(s, j, e).disk;
            DiskOk(d') && |d'| == |s.disk| && forall a | a in Live(s) ::
              && InodeOk(s.disk, a) && d'[a] == s.disk[a] && InodeOk(d', a)
              && Content(d', a) == if a == ROOT_DIR_SECTOR then Splice(Content(s.disk, a), 20 * j, EncodeEntry(e))
                                   else Content(s.disk, a)
  {
    var d' := WithEntry(s, j, e).disk;
    var b := EncodeEntry(e);
    forall a | a in Live(s)
      ensures InodeOk(s.disk, a) && d'[a] == s.disk[a] && InodeOk(d', a)
      ensures Content(d', a) == if a == ROOT_DIR_SECTOR then Splice(Content(s.disk, a), 20 * j, b) else Content(s.disk, a)
    {
      assert InodeOk(s.disk, a);
      WriteKeepsInode(s.disk, s.freeMap, Live(s), ROOT_DIR_SECTOR, 20 * j, b, a);
      WriteContents(s.disk, s.freeMap, Live(s), ROOT_DIR_SECTOR, 20 * j, b, a);
    }
  }

  lemma AddedNames(es: seq<Entry>, j: nat, e: Entry)
    requires DirOk(es) && j < |es| && !InUse(es, j) && e.inUse != 0 && ValidEntry(e)
    requires CString(e.name) !in NamesOf(es) && e.sector !in Named(es)
    ensures DirOk(es[j := e])
    ensures NamesOf(es[j := e]) == NamesOf(es)[CString(e.name) := e.sector]
    ensures Named(es[j := e]) == Named(es) + {e.sector as nat}
  {
    var es' := es[j := e];
    forall k: nat | InUse(es', k) && k != j
      ensures InUse(es, k) && CString(es[k].name) in NamesOf(es) && es[k].sector in Named(es)
    {
      EntryIsNamed(es, k);
    }
    AddedNamed(es, j, e);
    AddedLookup(es, j, e);
  }

  lemma AddedNamed(es: seq<Entry>, j: nat, e: Entry)
    requires j < |es| && !InUse(es, j) && e.inUse != 0
    ensures Named(es[j := e]) == Named(es) + {e.sector as nat}
  {
    var es' := es[j := e];
    assert InUse(es', j) && es'[j].sector == e.sector;
    forall x | x in Named(es) ensures x in Named(es') {
      var k: nat :| k < |es| && InUse(es, k) && es[k].sector == x;
      assert InUse(es', k) && es'[k].sector == x;
    }
  }

  /** A name is bound to a sector exactly when some entry in use says so. */
  lemma EntryIsNamed(es: seq<Entry>, j: nat)
    requires DirOk(es) && InUse(es, j)
    ensures CString(es[j].name) in NamesOf(es) && NamesOf(es)[CString(es[j].name)] == es[j].sector
    ensures SlotOf(es, CString(es[j].name)) == j
  {
    assert CString(es[j].name) in NameSet(es);
  }

  lemma NamedAreValues(es: seq<Entry>)
    requires DirOk(es)
    ensures NamesOf(es).Values == Named(es)
  {
    forall x | x in Named(es) ensures x in NamesOf(es).Values {
      var j: nat :| j < |es| && InUse(es, j) && es[j].sector == x;
      EntryIsNamed(es, j);
    }
    forall x | x in NamesOf(es).Values ensures x in Named(es) {
      var n :| n in NamesOf(es) && NamesOf(es)[n] == x;
      assert InUse(es, SlotOf(es, n));
    }
  }

  lemma AddedLookup(es: seq<Entry>, j: nat, e: Entry)
    requires DirOk(es) && j < |es| && !InUse(es, j) && e.inUse != 0 && DirOk(es[j := e])
    requires CString(e.name) !in NamesOf(es)
    ensures NamesOf(es[j := e]) == NamesOf(es)[CString(e.name) := e.sector]
  {
    var es' := es[j := e];
    EntryIsNamed(es', j);
    forall n | n in NameSet(es) ensures n in NameSet(es') && SlotOf(es', n) == SlotOf(es, n) != j {
      var k := SlotOf(es, n);
      assert InUse(es', k) && es'[k] == es[k];
      EntryIsNamed(es', k);
    }
    forall n | n in NameSet(es') && n != CString(e.name) ensures n in NameSet(es) {
      var k := SlotOf(es', n);
      EntryIsNamed(es, k);
    }
  }

  lemma RemovedNames(es: seq<Entry>, j: nat)
    requires DirOk(es) && InUse(es, j)
    ensures var es' := es[j := es[j].(inUse := 0)];
            && DirOk(es') && NamesOf(es') == NamesOf(es) - {CString(es[j].name)}
            && Named(es') == Named(es) - {es[j].sector as nat}
  {
    var es' := es[j := es[j].(inUse := 0)];
    forall k: nat | InUse(es', k) ensures InUse(es, k) && k != j && es'[k] == es[k] { }
    RemovedNamed(es, j);
    RemovedLookup(es, j, es');
  }

  lemma RemovedNamed(es: seq<Entry>, j: nat)
    requires DirOk(es) && InUse(es, j)
    ensures Named(es[j := es[j].(inUse := 0)]) == Named(es) - {es[j].sector as nat}
  {
    var es' := es[j := es[j].(inUse := 0)];
    forall x | x in Named(es) && x != es[j].sector ensures x in Named(es') {
      var k: nat :| k < |es| && InUse(es, k) && es[k].sector == x;
      assert InUse(es', k) && es'[k].sector == x;
    }
    forall x | x in Named(es') ensures x in Named(es) && x != es[j].sector {
      var k: nat :| k < |es'| && InUse(es', k) && es'[k].sector == x;
      assert InUse(es, k) && k != j;
    }
  }

  lemma RemovedLookup(es: seq<Entry>, j: nat, es': seq<Entry>)
    requires DirOk(es) && InUse(es, j) && DirOk(es') && es' == es[j := es[j].(inUse := 0)]
    ensures NamesOf(es') == NamesOf(es) - {CString(es[j].name)}
  {
    hide DirOk;
    EntryIsNamed(es, j);
    forall n | n in NameSet(es') ensures n in NameSet(es) && SlotOf(es, n) == SlotOf(es', n) && n != CString(es[j].name) {
      EntryIsNamed(es, SlotOf(es', n));
    }
    forall n | n in NameSet(es) && n != CString(es[j].name) ensures n in NameSet(es') {
      EntryIsNamed(es', SlotOf(es, n));
    }
  }

  // ----- a new inode -----

  /** What inode_create writes: the inode, and zeros in its data sectors. */
  function NewInode(d: Disk, sec: nat, i: InodeDisk): (r: Disk)
    requires DiskOk(d) && i.length >= 0
    ensures DiskOk(r) && |r| == |d|
  {
    seq(|d|, x requires 0 <= x < |d| => NewSector(d, sec, i, x))
  }

  function NewSector(d: Disk, sec: nat, i: InodeDisk, x: nat): (b: Bytes)
    requires DiskOk(d) && i.length >= 0 && x < |d|
    ensures |b| == 512
  {
    if x == sec then EncodeInode(i)
    else if i.start <= x < i.start + SectorsFor(i.length) then Zeros(512)
    else d[x]
  }

  lemma NewInodeIsEmptyFile(d: Disk, sec: nat, i: InodeDisk)
    requires DiskOk(d) && sec < |d| && i.length >= 0 && i.start + SectorsFor(i.length) <= |d|
    requires !(i.start <= sec < i.start + SectorsFor(i.length))
    ensures var d' := NewInode(d, sec, i);
            Desc(d', sec) == i && InodeOk(d', sec) && Content(d', sec) == Zeros(i.length)
  {
    var d' := NewInode(d, sec, i);
    InodeRoundTrip(i);
    assert d'[sec] == EncodeInode(i);
    forall k: nat | k < i.length ensures Content(d', sec)[k] == 0 {
      var x := i.start + k / 512;
      assert (512 * i.start + k) / 512 == x && d'[x] == Zeros(512);
      assert Content(d', sec)[k] == ByteAt(d', 512 * i.start + k);
    }
  }

  // ----- directory entries and live inodes -----

  /** The inode in sector sec is marked but belongs to no live file. */
  ghost predicate Loose(s: Fs, sec: nat)
    requires StorageOk(s)
  {
    && InodeOk(s.disk, sec)
    && forall x: nat | x < |s.disk| && Owns(s.disk, sec, x) :: s.freeMap[x] && forall a | a in Live(s) :: !Owns(s.disk, a, x)
  }

  /** Naming a loose inode makes it live, with the contents it has. */
  lemma AddEntryKeeps(s: Fs, j: nat, e: Entry)
    requires StorageOk(s) && j < DIR_ENTRIES && !InUse(Entries(s), j)
    requires EntryOk(e) && e.inUse != 0 && ValidEntry(e) && CString(e.name) !in NamesOf(Entries(s)) && Loose(s, e.sector)
    ensures var s' := WithEntry(s, j, e);
            && StorageOk(s') && Live(s') == Live(s) + {e.sector as nat}
            && NamesOf(Entries(s')) == NamesOf(Entries(s))[CString(e.name) := e.sector]
            && SameFiles(s, s', Live(s) - {ROOT_DIR_SECTOR}) && SameDescs(s, s', Live(s))
            && InodeOk(s'.disk, e.sector) && Content(s'.disk, e.sector) == Content(s.disk, e.sector)
            && s'.disk[e.sector] == s.disk[e.sector]
  {
    hide Layout, DirOk;
    var s' := WithEntry(s, j, e);
    var sec: nat := e.sector;
    LooseIsNew(s, sec);
    EntryWriteEffect(s, j, e);
    AddedNames(Entries(s), j, e);
    LooseUntouched(s, j, e);
    assert Live(s') == Live(s) + {sec};
    LayoutAdd(s'.disk, s'.freeMap, Live(s), sec);
    forall i | i in s.inodes ensures s.inodes[i].sector in Live(s) { }
    AddEntryInodes(s.disk, s'.disk, Named(Entries(s)), s.inodes, sec);
  }

  lemma LooseIsNew(s: Fs, sec: nat)
    requires StorageOk(s) && Loose(s, sec)
    ensures sec !in Live(s) && sec !in Named(Entries(s)) && sec < |s.disk| && Owns(s.disk, sec, sec)
  {
    assert Owns(s.disk, sec, sec);
  }

  lemma AddEntryInodes(d: Disk, d': Disk, named: set<nat>, inodes: map<nat, Inode>, sec: nat)
    requires DiskOk(d) && DiskOk(d') && |d'| == |d| && forall i | i in inodes :: Faithful(d, named, inodes[i])
    requires forall i | i in inodes :: inodes[i].sector < |d| && d'[inodes[i].sector] == d[inodes[i].sector] && inodes[i].sector != sec
    ensures forall i | i in inodes :: Faithful(d', named + {sec}, inodes[i])
  {
    forall i | i in inodes ensures Faithful(d', named + {sec}, inodes[i]) { assert Faithful(d, named, inodes[i]); }
  }

  lemma LooseUntouched(s: Fs, j: nat, e: Entry)
    requires StorageOk(s) && j < DIR_ENTRIES && EntryOk(e) && Loose(s, e.sector)
    ensures var d', sec: nat := WithEntry(s, j, e).disk, e.sector;
            && DiskOk(d') && InodeOk(d', sec) && Content(d', sec) == Content(s.disk, sec) && d'[sec] == s.disk[sec]
            && (forall a | a in Live(s) :: d'[a] == s.disk[a])
            && forall x: nat | x < |d'| && Owns(d', sec, x) :: s.freeMap[x] && forall a | a in Live(s) :: !Owns(d', a, x)
  {
    var d', sec: nat := WithEntry(s, j, e).disk, e.sector;
    var b := EncodeEntry(e);
    forall x: nat | x < |d'| && Owns(s.disk, sec, x) ensures d'[x] == s.disk[x] {
      assert !Owns(s.disk, ROOT_DIR_SECTOR, x);
      WriteTouches(s.disk, ROOT_DIR_SECTOR, 20 * j, b, x);
    }
    assert Owns(s.disk, sec, sec);
    SameData(s.disk, d', sec);
    forall a | a in Live(s) ensures d'[a] == s.disk[a] {
      WriteKeepsInode(s.disk, s.freeMap, Live(s), ROOT_DIR_SECTOR, 20 * j, b, a);
    }
  }

  /** Erasing the entry of an open inode and marking the inode removed unbinds the name and
      changes no file. */
  ghost function WithoutEntry(s: Fs, j: nat, id: nat): Fs
    requires StorageOk(s) && j < DIR_ENTRIES && id in s.inodes
  {
    var s1 := WithEntry(s, j, Entries(s)[j].(inUse := 0));
    s1.(inodes := s.inodes[id := s.inodes[id].(removed := true)])
  }

  lemma RemoveEntryKeeps(s: Fs, j: nat, id: nat)
    requires StorageOk(s) && j < DIR_ENTRIES && InUse(Entries(s), j) && id in s.inodes
    requires Entries(s)[j].sector == s.inodes[id].sector && OneInodePerSector(s.inodes)
    ensures var e, s' := Entries(s)[j], WithoutEntry(s, j, id);
            && StorageOk(s') && Live(s') == Live(s)
            && NamesOf(Entries(s')) == NamesOf(Entries(s)) - {CString(e.name)}
            && SameFiles(s, s', Live(s) - {ROOT_DIR_SECTOR}) && SameDescs(s, s', Live(s))
  {
    hide StorageOk, DirOk, Layout, SameFiles, SystemFilesOk, Live, Faithful, NamesOf, OneInodePerSector, InUse, CString;
    StorageFacts(s);
    var e, s' := Entries(s)[j], WithoutEntry(s, j, id);
    var s1 := WithEntry(s, j, e.(inUse := 0));
    ErasedEntry(s, j);
    EntryIsValid(Entries(s), j);
    OpenIsLive(s);
    RemoveEntryInodes(s.disk, s'.disk, Named(Entries(s)), s.inodes, id);
    SameSectors(s.inodes, id, s'.inodes[id]);
    SameFilesInodes(s, s1, s', Live(s) - {ROOT_DIR_SECTOR});
    AssembleStorage(s1, s', Live(s));
  }

  lemma StorageFacts(s: Fs)
    requires StorageOk(s)
    ensures DiskOk(s.disk) && InodeOk(s.disk, ROOT_DIR_SECTOR) && InodeOk(s.disk, FREE_MAP_SECTOR)
    ensures SystemFilesOk(s) && DirOk(Entries(s)) && Layout(s.disk, s.freeMap, Live(s)) && |Entries(s)| == DIR_ENTRIES
    ensures Live(s) == {FREE_MAP_SECTOR, ROOT_DIR_SECTOR} + Named(Entries(s)) + OpenSectors(s.inodes)
    ensures forall i | i in s.inodes :: Faithful(s.disk, Named(Entries(s)), s.inodes[i])
  {
  }

  lemma SameFilesInodes(s: Fs, s1: Fs, s': Fs, live: set<nat>)
    requires DiskOk(s.disk) && DiskOk(s1.disk) && SameFiles(s, s1, live) && s'.disk == s1.disk
    ensures SameFiles(s, s', live)
  {
  }

  lemma AssembleStorage(s1: Fs, s': Fs, live: set<nat>)
    requires s'.disk == s1.disk && s'.freeMap == s1.freeMap && s'.saved == s1.saved
    requires SystemFilesOk(s1) && DirOk(Entries(s1)) && Layout(s1.disk, s1.freeMap, live)
    requires {FREE_MAP_SECTOR, ROOT_DIR_SECTOR} + Named(Entries(s1)) + OpenSectors(s'.inodes) == live
    requires forall i | i in s'.inodes :: Faithful(s1.disk, Named(Entries(s1)), s'.inodes[i])
    ensures StorageOk(s') && Live(s') == live && Entries(s') == Entries(s1)
  {
  }

  lemma OpenIsLive(s: Fs)
    requires StorageOk(s)
    ensures forall i | i in s.inodes :: s.inodes[i].sector in OpenSectors(s.inodes) && s.inodes[i].sector in Live(s) && s.inodes[i].sector < |s.disk|
  {
  }

  /** The part of the removal that concerns the disk. */
  lemma ErasedEntry(s: Fs, j: nat)
    requires StorageOk(s) && j < DIR_ENTRIES && InUse(Entries(s), j)
    ensures var e := Entries(s)[j];
            var s1 := WithEntry(s, j, e.(inUse := 0));
            && DiskOk(s1.disk) && InodeOk(s1.disk, ROOT_DIR_SECTOR) && SystemFilesOk(s1) && DirOk(Entries(s1)) && Layout(s1.disk, s1.freeMap, Live(s))
            && NamesOf(Entries(s1)) == NamesOf(Entries(s)) - {CString(e.name)}
            && Named(Entries(s1)) == Named(Entries(s)) - {e.sector as nat}
            && SameFiles(s, s1, Live(s) - {ROOT_DIR_SECTOR}) && |s1.disk| == |s.disk|
            && forall a | a in Live(s) :: a < |s.disk| && s1.disk[a] == s.disk[a]
  {
    EntryWriteEffect(s, j, Entries(s)[j].(inUse := 0));
    RemovedNames(Entries(s), j);
  }

  lemma EntryIsValid(es: seq<Entry>, j: nat)
    requires DirOk(es) && InUse(es, j)
    ensures ValidEntry(es[j]) && es[j].sector as nat in Named(es)
  {
  }

  ghost predicate OneInodePerSector(inodes: map<nat, Inode>) {
    forall i, j | i in inodes && j in inodes && inodes[i].sector == inodes[j].sector :: i == j
  }

  lemma SameSectors(inodes: map<nat, Inode>, id: nat, node: Inode)
    requires id in inodes && inodes[id].sector == node.sector
    ensures OpenSectors(inodes[id := node]) == OpenSectors(inodes)
  {
    var after := inodes[id := node];
    forall x | x in OpenSectors(inodes) ensures x in OpenSectors(after) {
      var i :| i in inodes && inodes[i].sector == x;
      assert after[i].sector == x;
    }
  }

  lemma RemoveEntryInodes(d: Disk, d': Disk, named: set<nat>, inodes: map<nat, Inode>, id: nat)
    requires DiskOk(d) && DiskOk(d') && |d'| == |d| && forall i | i in inodes :: Faithful(d, named, inodes[i])
    requires forall i | i in inodes :: inodes[i].sector < |d| && d'[inodes[i].sector] == d[inodes[i].sector]
    requires id in inodes && OneInodePerSector(inodes)
    requires inodes[id].sector in named && inodes[id].sector !in {FREE_MAP_SECTOR, ROOT_DIR_SECTOR}
    ensures var inodes' := inodes[id := inodes[id].(removed := true)];
            forall i | i in inodes' :: Faithful(d', named - {inodes[id].sector}, inodes'[i])
  {
    var inodes' := inodes[id := inodes[id].(removed := true)];
    forall i | i in inodes' ensures Faithful(d', named - {inodes[id].sector}, inodes'[i]) {
      assert Faithful(d, named, inodes[i]);
    }
  }
}
