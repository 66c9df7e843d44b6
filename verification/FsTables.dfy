/** How opening, closing and denying writes change the tables of open inodes and files. */
module FsTables {
  import opened FsLayout
  import opened FsDevice
  import opened FsInvariant
  import opened FsLemmas

  // ----- frames -----

  /** The storage invariant does not depend on the files or on the order of the inodes. */
  lemma StorageSame(s: Fs, s': Fs)
    requires StorageOk(s) && s'.disk == s.disk && s'.freeMap == s.freeMap && s'.inodes == s.inodes && s'.saved == s.saved
    ensures StorageOk(s') && Live(s') == Live(s) && Entries(s') == Entries(s)
  {
  }

  /** Inodes may be opened and closed as long as they stay faithful copies of live inodes. */
  lemma StorageInodes(s: Fs, s': Fs)
    requires StorageOk(s) && s'.disk == s.disk && s'.freeMap == s.freeMap && s'.saved == s.saved
    requires OpenSectors(s'.inodes) <= Live(s) && InodesOk(s')
    ensures StorageOk(s') && Live(s') <= Live(s) && Entries(s') == Entries(s)
  {
    LayoutSubset(s.disk, s.freeMap, Live(s), Live(s'));
  }

  lemma OpenSectorsAre(inodes: map<nat, Inode>)
    ensures forall i | i in inodes :: inodes[i].sector in OpenSectors(inodes)
    ensures forall x | x in OpenSectors(inodes) :: exists i :: i in inodes && inodes[i].sector == x
  {
  }

  // ----- opening -----

  /** inode_open of a sector that is not open yet. */
  ghost function OpenNew(s: Fs, id: nat, sec: nat): Fs
    requires DiskOk(s.disk) && sec < |s.disk|
  {
    s.(inodes := s.inodes[id := Inode(sec, 1, false, 0, Desc(s.disk, sec))], openList := [id] + s.openList)
  }

  lemma LiveIsOnDisk(s: Fs, sec: nat)
    requires StorageOk(s) && sec in Live(s)
    ensures DiskOk(s.disk) && sec < |s.disk| && InodeOk(s.disk, sec)
  {
  }

  lemma OpenNewKeeps(s: Fs, id: nat, sec: nat, p: multiset<nat>)
    requires Ok(s, p) && id !in s.inodes && sec in Live(s) && sec !in OpenSectors(s.inodes)
    ensures sec < |s.disk| && DiskOk(s.disk)
    ensures Ok(OpenNew(s, id, sec), p + multiset{id}) && Live(OpenNew(s, id, sec)) == Live(s)
    ensures Entries(OpenNew(s, id, sec)) == Entries(s)
  {
    hide StorageOk, TablesOk;
    LiveIsOnDisk(s, sec);
    NewInodeStorage(s, id, sec);
    NewInodeTables(s, id, sec, p);
  }

  lemma NewInodeStorage(s: Fs, id: nat, sec: nat)
    requires StorageOk(s) && id !in s.inodes && sec in Live(s) && sec < |s.disk| && DiskOk(s.disk)
    requires sec !in OpenSectors(s.inodes)
    ensures var s' := OpenNew(s, id, sec); StorageOk(s') && Live(s') == Live(s) && Entries(s') == Entries(s)
  {
    hide Layout, DirOk, Content, InodeOk, EncodeMap, DirEntries, Named;
    var s' := OpenNew(s, id, sec);
    GrownSectors(s.inodes, id, s'.inodes[id]);
    StorageInodes(s, s');
    assert Live(s') == Live(s);
  }

  lemma GrownSectors(inodes: map<nat, Inode>, id: nat, node: Inode)
    requires id !in inodes
    ensures OpenSectors(inodes[id := node]) == OpenSectors(inodes) + {node.sector}
  {
    var after := inodes[id := node];
    assert after[id].sector == node.sector;
    forall x | x in OpenSectors(inodes) ensures x in OpenSectors(after) {
      var i :| i in inodes && inodes[i].sector == x;
      assert after[i].sector == x;
    }
  }

  lemma NewInodeTables(s: Fs, id: nat, sec: nat, p: multiset<nat>)
    requires TablesOk(s, p) && DiskOk(s.disk) && sec < |s.disk|
    requires id !in s.inodes && sec !in OpenSectors(s.inodes)
    ensures TablesOk(OpenNew(s, id, sec), p + multiset{id})
  {
    var s' := OpenNew(s, id, sec);
    assert p[id] == 0 && HandlesOf(s.files, id) == {} && DenyersOf(s.files, id) == {};
    forall i | i in s'.inodes ensures CountOk(s'.files, i, s'.inodes[i], p + multiset{id}) {
      if i != id { assert CountOk(s.files, i, s.inodes[i], p); }
    }
    NewInodeList(s.inodes, s.openList, id, s'.inodes[id]);
  }

  lemma NewInodeList(inodes: map<nat, Inode>, list: seq<nat>, id: nat, node: Inode)
    requires OpenListOk(inodes, list) && id !in inodes && node.sector !in OpenSectors(inodes)
    ensures OpenListOk(inodes[id := node], [id] + list)
  {
    OpenSectorsAre(inodes);
    forall x, q | 0 <= x < q < |[id] + list| ensures ([id] + list)[x] != ([id] + list)[q] {
      assert ([id] + list)[q] in list;
    }
  }

  // ----- counting -----

  /** One open inode with other counts or marks. */
  ghost function WithNode(s: Fs, id: nat, node: Inode): Fs { s.(inodes := s.inodes[id := node]) }

  lemma NodeStorage(s: Fs, id: nat, node: Inode)
    requires StorageOk(s) && id in s.inodes
    requires node.sector == s.inodes[id].sector && node.data == s.inodes[id].data
    requires node.removed == s.inodes[id].removed
    ensures var s' := WithNode(s, id, node); StorageOk(s') && Live(s') == Live(s) && Entries(s') == Entries(s)
  {
    hide Layout, DirOk;
    var s' := WithNode(s, id, node);
    SameSectors(s.inodes, id, node);
    StorageInodes(s, s');
    assert Live(s') == Live(s);
  }

  lemma NodeTables(s: Fs, id: nat, node: Inode, p: multiset<nat>, p': multiset<nat>)
    requires TablesOk(s, p) && id in s.inodes && node.sector == s.inodes[id].sector
    requires CountOk(s.files, id, node, p') && forall i | i != id :: p'[i] == p[i]
    ensures TablesOk(WithNode(s, id, node), p')
  {
    hide CountOk, OpenListOk, FilesOk;
    NodeCounts(s, id, node, p, p');
    NodeListAndFiles(s, id, node);
  }

  lemma NodeListAndFiles(s: Fs, id: nat, node: Inode)
    requires OpenListOk(s.inodes, s.openList) && (forall f | f in s.files :: s.files[f].inode in s.inodes) && FilesOk(s)
    requires id in s.inodes && node.sector == s.inodes[id].sector
    ensures OpenListOk(WithNode(s, id, node).inodes, s.openList) && FilesOk(WithNode(s, id, node))
  {
  }

  lemma NodeCounts(s: Fs, id: nat, node: Inode, p: multiset<nat>, p': multiset<nat>)
    requires CountsOk(s, p) && id in s.inodes && CountOk(s.files, id, node, p') && forall i | i != id :: p'[i] == p[i]
    ensures CountsOk(WithNode(s, id, node), p')
  {
    hide CountOk;
    var s' := WithNode(s, id, node);
    forall i | i in s'.inodes ensures CountOk(s'.files, i, s'.inodes[i], p') {
      if i != id { CountSame(s.files, i, s.inodes[i], p, p'); }
    }
    forall i | i in p' ensures i in s'.inodes { if i != id { assert p[i] > 0; } }
  }

  lemma CountSame(files: map<nat, File>, i: nat, node: Inode, p: multiset<nat>, p': multiset<nat>)
    requires CountOk(files, i, node, p) && p'[i] == p[i]
    ensures CountOk(files, i, node, p')
  {
  }

  lemma CountsAre(s: Fs, id: nat, p: multiset<nat>)
    requires TablesOk(s, p) && (id in s.inodes || id in p)
    ensures id in s.inodes && CountOk(s.files, id, s.inodes[id], p)
  {
  }

  lemma OpenInodeFacts(s: Fs, id: nat)
    requires StorageOk(s) && id in s.inodes
    ensures s.inodes[id].removed <==> s.inodes[id].sector !in Named(Entries(s)) + {FREE_MAP_SECTOR, ROOT_DIR_SECTOR}
    ensures s.inodes[id].sector in Live(s) && s.inodes[id].sector < |s.disk| && s.inodes[id].data == Desc(s.disk, s.inodes[id].sector)
  {
  }

  /** inode_reopen */
  lemma ReopenKeeps(s: Fs, id: nat, p: multiset<nat>)
    requires Ok(s, p) && id in s.inodes
    ensures var s' := WithNode(s, id, s.inodes[id].(openCnt := s.inodes[id].openCnt + 1));
            Ok(s', p + multiset{id}) && Live(s') == Live(s) && Entries(s') == Entries(s)
  {
    hide StorageOk, TablesOk;
    var node := s.inodes[id].(openCnt := s.inodes[id].openCnt + 1);
    OpenInodeFacts(s, id);
    CountsAre(s, id, p);
    NodeStorage(s, id, node);
    NodeTables(s, id, node, p, p + multiset{id});
  }

  /** inode_close of a reference that is not the last. */
  lemma CloseOneKeeps(s: Fs, id: nat, p: multiset<nat>)
    requires Ok(s, p) && id in p && id in s.inodes && s.inodes[id].openCnt > 1
    ensures var s' := WithNode(s, id, s.inodes[id].(openCnt := s.inodes[id].openCnt - 1));
            Ok(s', p - multiset{id}) && Live(s') == Live(s) && Entries(s') == Entries(s)
  {
    hide StorageOk, TablesOk;
    var node := s.inodes[id].(openCnt := s.inodes[id].openCnt - 1);
    OpenInodeFacts(s, id);
    CountsAre(s, id, p);
    NodeStorage(s, id, node);
    NodeTables(s, id, node, p, p - multiset{id});
  }

  /** The open-inode list without one of its inodes. */
  function Without(q: seq<nat>, id: nat): seq<nat> {
    if q == [] then [] else if q[0] == id then q[1..] else [q[0]] + Without(q[1..], id)
  }

  ghost predicate Distinct(q: seq<nat>) { forall x, y | 0 <= x < y < |q| :: q[x] != q[y] }

  lemma {:induction false} WithoutContents(q: seq<nat>, id: nat)
    requires Distinct(q)
    ensures (forall i :: i in Without(q, id) <==> i in q && i != id) && Distinct(Without(q, id))
  {
    if q != [] {
      assert q == [q[0]] + q[1..];
      forall k | 0 <= k < |q[1..]| ensures q[1..][k] != q[0] { assert q[k + 1] != q[0]; }
      WithoutContents(q[1..], id);
      if q[0] != id { ConsDistinct(q[0], Without(q[1..], id)); }
    }
  }

  lemma ConsDistinct(i: nat, q: seq<nat>)
    requires i !in q && Distinct(q)
    ensures Distinct([i] + q)
  {
    forall x, y | 0 <= x < y < |[i] + q| ensures ([i] + q)[x] != ([i] + q)[y] {
      assert ([i] + q)[y] == q[y - 1];
    }
  }

  ghost function CloseLast(s: Fs, id: nat): Fs {
    s.(inodes := s.inodes - {id}, openList := Without(s.openList, id))
  }

  /** inode_close of the last reference, before the blocks of a removed inode are freed. A
      removed inode stops being live; a named one stays. */
  lemma CloseLastKeeps(s: Fs, id: nat, p: multiset<nat>)
    requires Ok(s, p) && id in p && id in s.inodes && s.inodes[id].openCnt == 1
    ensures var s' := CloseLast(s, id);
            && Ok(s', p - multiset{id}) && Entries(s') == Entries(s) && Live(s') == if s.inodes[id].removed then Live(s) - {s.inodes[id].sector} else Live(s)
  {
    hide StorageOk, TablesOk;
    CountsAre(s, id, p);
    LastTables(s, id, p);
    assert OneInodePerSector(s.inodes) by { InodesAreUnique(s, p); }
    LastStorage(s, id);
  }

  /** Giving up one reference to an open inode. */
  ghost function LetGo(s: Fs, id: nat): Fs
    requires id in s.inodes
  {
    if s.inodes[id].openCnt == 1 then CloseLast(s, id) else WithNode(s, id, s.inodes[id].(openCnt := s.inodes[id].openCnt - 1))
  }

  lemma LetGoTables(s: Fs, id: nat, p: multiset<nat>)
    requires TablesOk(s, p) && id in p && id in s.inodes
    ensures TablesOk(LetGo(s, id), p - multiset{id}) && s.inodes[id].openCnt >= 1
  {
    hide TablesOk;
    CountsAre(s, id, p);
    if s.inodes[id].openCnt == 1 {
      LastTables(s, id, p);
    } else {
      NodeTables(s, id, s.inodes[id].(openCnt := s.inodes[id].openCnt - 1), p, p - multiset{id});
    }
  }

  /** The root directory is open only while some code has it open. */
  lemma RootIsClosed(s: Fs)
    requires TablesOk(s, multiset{})
    ensures ROOT_DIR_SECTOR !in OpenSectors(s.inodes)
  {
    forall id | id in s.inodes ensures s.inodes[id].sector != ROOT_DIR_SECTOR {
      assert CountOk(s.files, id, s.inodes[id], multiset{});
      assert HandlesOf(s.files, id) != {};
      var f :| f in HandlesOf(s.files, id);
      assert f == 0 || s.inodes[s.files[f].inode].sector != ROOT_DIR_SECTOR;
    }
  }

  lemma InodesAreUnique(s: Fs, p: multiset<nat>)
    requires TablesOk(s, p)
    ensures OneInodePerSector(s.inodes)
  {
  }

  lemma LastStorage(s: Fs, id: nat)
    requires StorageOk(s) && id in s.inodes && OneInodePerSector(s.inodes)
    ensures var s' := CloseLast(s, id);
            && StorageOk(s') && Entries(s') == Entries(s) && Live(s') == if s.inodes[id].removed then Live(s) - {s.inodes[id].sector} else Live(s)
  {
    hide Layout, DirOk;
    var s' := CloseLast(s, id);
    ShrunkSectors(s.inodes, id);
    StorageInodes(s, s');
  }

  lemma ShrunkSectors(inodes: map<nat, Inode>, id: nat)
    requires id in inodes && OneInodePerSector(inodes)
    ensures OpenSectors(inodes - {id}) == OpenSectors(inodes) - {inodes[id].sector}
  {
    var after := inodes - {id};
    forall x | x in OpenSectors(inodes) && x != inodes[id].sector ensures x in OpenSectors(after) {
      var i :| i in inodes && inodes[i].sector == x;
      assert i in after && after[i].sector == x;
    }
  }

  lemma LastTables(s: Fs, id: nat, p: multiset<nat>)
    requires TablesOk(s, p) && id in p && id in s.inodes && s.inodes[id].openCnt == 1
    ensures TablesOk(CloseLast(s, id), p - multiset{id})
  {
    var s', p' := CloseLast(s, id), p - multiset{id};
    assert CountOk(s.files, id, s.inodes[id], p);
    assert HandlesOf(s.files, id) == {};
    NoHandles(s.files, id);
    LastCounts(s, id, p);
    WithoutContents(s.openList, id);
  }

  lemma NoHandles(files: map<nat, File>, id: nat)
    requires HandlesOf(files, id) == {}
    ensures forall f | f in files :: files[f].inode != id
  {
    forall f | f in files ensures files[f].inode != id {
      assert f !in HandlesOf(files, id);
    }
  }

  lemma LastCounts(s: Fs, id: nat, p: multiset<nat>)
    requires CountsOk(s, p) && id in p && id in s.inodes && s.inodes[id].openCnt == 1
    requires forall f | f in s.files :: s.files[f].inode != id
    ensures CountsOk(CloseLast(s, id), p - multiset{id})
  {
    var s', p' := CloseLast(s, id), p - multiset{id};
    assert CountOk(s.files, id, s.inodes[id], p);
    forall i | i in s'.inodes ensures CountOk(s'.files, i, s'.inodes[i], p') { assert CountOk(s.files, i, s.inodes[i], p); }
  }

  // ----- files -----

  /** file_open: the new file takes over the reference of the code that opened the inode. */
  ghost function Attach(s: Fs, f: nat, id: nat): Fs {
    s.(files := s.files[f := File(id, 0, false)])
  }

  lemma AttachKeeps(s: Fs, f: nat, id: nat, p: multiset<nat>)
    requires Ok(s, p) && f !in s.files && f != 0 && id in p && id in s.inodes
    requires s.inodes[id].sector != FREE_MAP_SECTOR && s.inodes[id].sector != ROOT_DIR_SECTOR
    ensures Ok(Attach(s, f, id), p - multiset{id}) && Live(Attach(s, f, id)) == Live(s)
    ensures Entries(Attach(s, f, id)) == Entries(s)
  {
    hide StorageOk, TablesOk;
    StorageSame(s, Attach(s, f, id));
    AttachTables(s, f, id, p);
  }

  lemma AttachTables(s: Fs, f: nat, id: nat, p: multiset<nat>)
    requires TablesOk(s, p) && f !in s.files && f != 0 && id in p && id in s.inodes
    requires s.inodes[id].sector != FREE_MAP_SECTOR && s.inodes[id].sector != ROOT_DIR_SECTOR
    ensures TablesOk(Attach(s, f, id), p - multiset{id})
  {
    var s', p' := Attach(s, f, id), p - multiset{id};
    forall i | i in s'.inodes ensures CountOk(s'.files, i, s'.inodes[i], p') {
      assert CountOk(s.files, i, s.inodes[i], p);
      AttachHandles(s.files, f, id, i);
    }
  }

  lemma AttachHandles(files: map<nat, File>, f: nat, id: nat, i: nat)
    requires f !in files
    ensures var after := files[f := File(id, 0, false)];
            && |HandlesOf(after, i)| == |HandlesOf(files, i)| + (if i == id then 1 else 0)
            && DenyersOf(after, i) == DenyersOf(files, i)
  {
    var after := files[f := File(id, 0, false)];
    assert HandlesOf(after, i) == if i == id then HandlesOf(files, i) + {f} else HandlesOf(files, i);
  }

  /** file_close, after the file has stopped denying writes. */
  ghost function Detach(s: Fs, f: nat): Fs {
    s.(files := s.files - {f})
  }

  lemma DetachKeeps(s: Fs, f: nat, p: multiset<nat>)
    requires Ok(s, p) && f in s.files && f != 0 && !s.files[f].denyWrite
    ensures Ok(Detach(s, f), p + multiset{s.files[f].inode}) && Live(Detach(s, f)) == Live(s)
    ensures Entries(Detach(s, f)) == Entries(s)
  {
    hide StorageOk, TablesOk;
    StorageSame(s, Detach(s, f));
    DetachTables(s, f, p);
  }

  lemma DetachTables(s: Fs, f: nat, p: multiset<nat>)
    requires TablesOk(s, p) && f in s.files && f != 0 && !s.files[f].denyWrite
    ensures TablesOk(Detach(s, f), p + multiset{s.files[f].inode})
  {
    var s', id := Detach(s, f), s.files[f].inode;
    var p' := p + multiset{id};
    forall i | i in s'.inodes ensures CountOk(s'.files, i, s'.inodes[i], p') {
      assert CountOk(s.files, i, s.inodes[i], p);
      DetachHandles(s.files, f, i);
    }
  }

  lemma DetachHandles(files: map<nat, File>, f: nat, i: nat)
    requires f in files && !files[f].denyWrite
    ensures var after := files - {f};
            && |HandlesOf(after, i)| == |HandlesOf(files, i)| - (if i == files[f].inode then 1 else 0)
            && DenyersOf(after, i) == DenyersOf(files, i)
  {
    var after := files - {f};
    assert HandlesOf(after, i) == if i == files[f].inode then HandlesOf(files, i) - {f} else HandlesOf(files, i);
  }

  /** file_deny_write and file_allow_write on a file in the other state. */
  ghost function SetDeny(s: Fs, f: nat, deny: bool): Fs
    requires f in s.files && s.files[f].inode in s.inodes
  {
    var id := s.files[f].inode;
    var node := s.inodes[id];
    s.(files := s.files[f := s.files[f].(denyWrite := deny)],
       inodes := s.inodes[id := node.(denyCnt := if deny then node.denyCnt + 1 else node.denyCnt - 1)])
  }

  lemma SetDenyKeeps(s: Fs, f: nat, deny: bool, p: multiset<nat>)
    requires Ok(s, p) && f in s.files && f != 0 && s.files[f].denyWrite != deny
    ensures s.files[f].inode in s.inodes
    ensures Ok(SetDeny(s, f, deny), p) && Live(SetDeny(s, f, deny)) == Live(s)
    ensures Entries(SetDeny(s, f, deny)) == Entries(s)
    ensures var node := s.inodes[s.files[f].inode];
            0 <= node.denyCnt <= node.openCnt && (deny ==> node.denyCnt + 1 <= node.openCnt) && (!deny ==> node.denyCnt > 0)
  {
    hide StorageOk, TablesOk;
    DenyTables(s, f, deny, p);
    var id := s.files[f].inode;
    OpenInodeFacts(s, id);
    NodeStorage(s, id, SetDeny(s, f, deny).inodes[id]);
    StorageSame(WithNode(s, id, SetDeny(s, f, deny).inodes[id]), SetDeny(s, f, deny));
  }

  lemma DenyTables(s: Fs, f: nat, deny: bool, p: multiset<nat>)
    requires TablesOk(s, p) && f in s.files && f != 0 && s.files[f].denyWrite != deny
    ensures s.files[f].inode in s.inodes && TablesOk(SetDeny(s, f, deny), p)
    ensures var node := s.inodes[s.files[f].inode];
            0 <= node.denyCnt <= node.openCnt && (deny ==> node.denyCnt + 1 <= node.openCnt) && (!deny ==> node.denyCnt > 0)
  {
    hide CountOk;
    var s', id := SetDeny(s, f, deny), s.files[f].inode;
    DenyCount(s.files, f, deny, id, s.inodes[id], s'.inodes[id], p);
    forall i | i in s'.inodes ensures CountOk(s'.files, i, s'.inodes[i], p) {
      DenyCount(s.files, f, deny, i, s.inodes[i], s'.inodes[i], p);
    }
  }

  lemma DenyCount(files: map<nat, File>, f: nat, deny: bool, i: nat, node: Inode, after: Inode, p: multiset<nat>)
    requires f in files && files[f].denyWrite != deny && CountOk(files, i, node, p)
    requires after == node.(denyCnt := node.denyCnt + (if i != files[f].inode then 0 else if deny then 1 else -1))
    ensures CountOk(files[f := files[f].(denyWrite := deny)], i, after, p)
    ensures 0 <= node.denyCnt <= node.openCnt && 0 <= after.denyCnt <= after.openCnt
  {
    DenyHandles(files, f, deny, i);
  }

  lemma DenyHandles(files: map<nat, File>, f: nat, deny: bool, i: nat)
    requires f in files && files[f].denyWrite != deny
    ensures var after := files[f := files[f].(denyWrite := deny)];
            && HandlesOf(after, i) == HandlesOf(files, i)
            && |DenyersOf(after, i)| == |DenyersOf(files, i)| + (if i != files[f].inode then 0 else if deny then 1 else -1)
            && |DenyersOf(after, i)| <= |HandlesOf(files, i)| && |DenyersOf(files, i)| <= |HandlesOf(files, i)|
  {
    var after := files[f := files[f].(denyWrite := deny)];
    var b, a := DenyersOf(files, i), DenyersOf(after, i);
    assert HandlesOf(after, i) == HandlesOf(files, i);
    assert a == if i != files[f].inode then b else if deny then b + {f} else b - {f};
    Subset(b, HandlesOf(files, i));
    Subset(a, HandlesOf(files, i));
  }

  lemma Subset(a: set<nat>, b: set<nat>)
    requires a <= b
    ensures |a| <= |b|
  {
    assert b == a + (b - a);
  }

  /** Moving the position of a file. */
  ghost function SetPos(s: Fs, f: nat, pos: nat): Fs
    requires f in s.files
  {
    s.(files := s.files[f := s.files[f].(pos := pos)])
  }

  lemma SetPosKeeps(s: Fs, f: nat, pos: nat, p: multiset<nat>)
    requires Ok(s, p) && f in s.files && f != 0
    ensures Ok(SetPos(s, f, pos), p) && Live(SetPos(s, f, pos)) == Live(s) && Entries(SetPos(s, f, pos)) == Entries(s)
  {
    hide StorageOk, TablesOk;
    StorageSame(s, SetPos(s, f, pos));
    SetPosTables(s, f, pos, p);
  }

  lemma SetPosTables(s: Fs, f: nat, pos: nat, p: multiset<nat>)
    requires TablesOk(s, p) && f in s.files && f != 0
    ensures TablesOk(SetPos(s, f, pos), p)
  {
    hide CountOk;
    var s' := SetPos(s, f, pos);
    forall i | i in s'.inodes ensures CountOk(s'.files, i, s'.inodes[i], p) {
      SetPosCount(s.files, f, pos, i, s.inodes[i], p);
    }
  }

  lemma SetPosCount(files: map<nat, File>, f: nat, pos: nat, i: nat, node: Inode, p: multiset<nat>)
    requires f in files && CountOk(files, i, node, p)
    ensures CountOk(files[f := files[f].(pos := pos)], i, node, p)
  {
    var files' := files[f := files[f].(pos := pos)];
    assert HandlesOf(files', i) == HandlesOf(files, i) && DenyersOf(files', i) == DenyersOf(files, i);
  }
}
