/** What the users of the file system see of a file: the bytes that a handle reads and writes,
    in any run of operations on this and other files. */
module FsStreams {
  import opened FsLayout
  import opened FsDevice
  import opened FsInvariant
  import opened FsLemmas
  import opened FsEffects
  import opened FsModel
  import opened FsTheorems

  // ----- what the events on a handle return -----

  /** The bytes returned by the reads on h, joined. */
  function Joined(es: seq<Event>, h: nat): Bytes
    decreases |es|
  {
    if es == [] then [] else
      var e := es[|es| - 1];
      Joined(es[..|es| - 1], h) + if e.Reads? && e.h == h then e.data else []
  }

  /** The bytes written by file_write on h, joined. */
  function Put(es: seq<Event>, h: nat): Bytes
    decreases |es|
  {
    if es == [] then [] else
      var e := es[|es| - 1];
      Put(es[..|es| - 1], h) + if e.WritesOn? && e.h == h then e.data else []
  }

  /** How many bytes the reads, or the writes, on h have asked for. */
  function Asked(es: seq<Event>, h: nat, writes: bool): nat
    decreases |es|
  {
    if es == [] then 0 else
      var e := es[|es| - 1];
      Asked(es[..|es| - 1], h, writes) + if (if writes then e.WritesOn? else e.Reads?) && e.h == h && e.asked > 0 then e.asked else 0
  }

  /** Every read and write on h finds a bounce buffer. */
  ghost predicate HasBuffers(es: seq<Event>, h: nat) {
    forall e | e in es && (e.Reads? || e.WritesOn?) && e.h == h :: e.bounceOk
  }

  // ----- one event -----

  /** The model of a consistent state. */
  ghost function Seen(s: Fs): Model { if Modelled(s) then ModelOf(s) else Model(map[], map[], map[]) }

  /** The bytes of a file. */
  ghost function BytesOf(s: Fs, file: nat): Bytes { if file in Seen(s).contents then Seen(s).contents[file] else [] }

  /** The file that handle h is open on. */
  ghost function FileAt(s: Fs, h: nat): nat { if h in Seen(s).handles then Seen(s).handles[h].file else 0 }

  ghost function FileNamed(s: Fs, name: Name): nat { if name in Seen(s).names then Seen(s).names[name] else 0 }

  /** What each event does to the model. */
  ghost predicate ModelStep(m: Model, e: Event, m': Model) {
    match e
    case Creates(name, file, size) => name !in m.names && file !in m.contents && m' == Create(m, name, file, size)
    case Opens(name, h) => name in m.names && h !in m.handles && m' == Open(m, m.names[name], h)
    case Reopens(f, h) => f in m.handles && h !in m.handles && m' == Open(m, m.handles[f].file, h)
    case Removes(name) => name in m.names && m' == Remove(m, name)
    case Closes(h) => h in m.handles && m' == Close(m, h)
    case Writes(h, off, asked, bounceOk, data) =>
      h in m.handles && CanWrite(m, m.handles[h].file, off, data) && m' == Write(m, m.handles[h].file, off, data)
      && WriteCount(m, h, asked, off, bounceOk, |data|)
    case WritesOn(h, asked, bounceOk, data) =>
      h in m.handles && m.handles[h].pos >= 0
      && var th := m.handles[h];
         && CanWrite(m, th.file, th.pos, data) && WriteCount(m, h, asked, th.pos, bounceOk, |data|)
         && m' == Seek(Write(m, th.file, th.pos, data), h, th.pos + |data|)
    case Reads(h, asked, bounceOk, data) =>
      h in m.handles && m.handles[h].pos >= 0 && ReadResult(m, h, asked, m.handles[h].pos, bounceOk, data)
      && m' == Seek(m, h, m.handles[h].pos + |data|)
    case Seeks(h, pos) => h in m.handles && m' == Seek(m, h, pos)
    case Denies(h, deny) => h in m.handles && m' == Deny(m, h, deny)
    case Fails => m' == m
    case Leaks(_, _, _) => m' == m
  }

  lemma DidModel(s: Fs, e: Event, s': Fs)
    requires Did(s, e, s')
    ensures ModelStep(Seen(s), e, Seen(s'))
  {
    hide Ok, Modelled, ModelOf, Accounted, Claimed, Released, Leaked, SameStorage, DirAccepts, ReadResult, WriteCount, CanWrite, SameModel,
         Create, Remove, Close, Splice, Open, Write, Seek, Deny;
    match e
    case Fails => SameModelIs(s, s');
    case Leaks(_, _, _) => SameModelIs(s, s');
    case _ =>
  }

  lemma DidIsSeen(s: Fs, e: Event, s': Fs)
    requires Did(s, e, s')
    ensures Modelled(s) && Modelled(s') && Seen(s) == ModelOf(s) && Seen(s') == ModelOf(s') && Ok(s, multiset{})
  {
    hide Modelled, ModelOf, Ok;
  }

  /** The part of c at a position. */
  function Slice(c: Bytes, pos: nat, n: int): Bytes {
    if n <= 0 || pos >= |c| then [] else if n <= |c| - pos then c[pos..pos + n] else c[pos..]
  }

  /** Handle h is at position pos of a file with contents c. */
  predicate AtPos(m: Model, h: nat, file: nat, c: Bytes, pos: nat) {
    h in m.handles && m.handles[h].file == file && m.handles[h].pos == pos && file in m.contents && m.contents[file] == c
  }

  ghost predicate At(s: Fs, h: nat, file: nat, c: Bytes, pos: nat) { AtPos(Seen(s), h, file, c, pos) }

  function Left(c: Bytes, pos: nat): nat { if pos < |c| then |c| - pos else 0 }

  /** How many bytes a request for so many gets at the position. */
  function Got(asked: int, c: Bytes, pos: nat): nat { if asked <= 0 then 0 else Min(asked, Left(c, pos)) }

  lemma MovedIs(c: Bytes, asked: int, pos: nat, bounceOk: bool)
    ensures Moved(|c|, asked, pos, bounceOk) <= Left(c, pos) && (bounceOk ==> Moved(|c|, asked, pos, bounceOk) == Got(asked, c, pos))
  {
  }

  lemma ReadModels(m: Model, h: nat, asked: int, bounceOk: bool, data: Bytes, m': Model, file: nat, c: Bytes, pos: nat)
    requires AtPos(m, h, file, c, pos) && ReadResult(m, h, asked, pos, bounceOk, data) && m' == Seek(m, h, pos + |data|)
    ensures AtPos(m', h, file, c, pos + |data|) && |data| <= Left(c, pos) && (data != [] ==> data == c[pos..pos + |data|])
    ensures bounceOk ==> |data| == Got(asked, c, pos)
  {
    hide Moved;
    MovedIs(c, asked, pos, bounceOk);
  }

  lemma ReadAt(s: Fs, h: nat, asked: int, bounceOk: bool, data: Bytes, s': Fs, file: nat, c: Bytes, pos: nat)
    requires Did(s, Reads(h, asked, bounceOk, data), s') && At(s, h, file, c, pos)
    ensures At(s', h, file, c, pos + |data|) && |data| <= Left(c, pos) && (data != [] ==> data == c[pos..pos + |data|])
    ensures bounceOk ==> |data| == Got(asked, c, pos)
  {
    hide Did, Seen, ReadResult, Got, Left;
    DidModel(s, Reads(h, asked, bounceOk, data), s');
    ReadModels(Seen(s), h, asked, bounceOk, data, Seen(s'), file, c, pos);
  }

  /** c with data put at a position, as far as it fits. */
  function Patched(c: Bytes, pos: nat, data: Bytes): Bytes { if pos + |data| <= |c| then c[..pos] + data + c[pos + |data|..] else c }

  lemma WriteModels(m: Model, h: nat, asked: int, bounceOk: bool, data: Bytes, m': Model, file: nat, c: Bytes, pos: nat)
    requires AtPos(m, h, file, c, pos) && CanWrite(m, file, pos, data) && m' == Seek(Write(m, file, pos, data), h, pos + |data|)
    requires WriteCount(m, h, asked, pos, bounceOk, |data|)
    ensures |data| <= Left(c, pos) && AtPos(m', h, file, Patched(c, pos, data), pos + |data|)
    ensures bounceOk && !WritesDenied(m, file) ==> |data| == Got(asked, c, pos)
  {
    hide Moved;
    MovedIs(c, asked, pos, bounceOk);
  }

  lemma WriteAt(s: Fs, h: nat, asked: int, bounceOk: bool, data: Bytes, s': Fs, file: nat, c: Bytes, pos: nat)
    requires Did(s, WritesOn(h, asked, bounceOk, data), s') && At(s, h, file, c, pos)
    ensures |data| <= Left(c, pos) && At(s', h, file, Patched(c, pos, data), pos + |data|)
    ensures bounceOk && !WritesDenied(Seen(s), file) ==> |data| == Got(asked, c, pos)
  {
    hide Did, Seen, WriteCount, Got, Left, Splice, WritesDenied;
    DidModel(s, WritesOn(h, asked, bounceOk, data), s');
    WriteModels(Seen(s), h, asked, bounceOk, data, Seen(s'), file, c, pos);
  }

  /** The event does not write to the file. */
  ghost predicate SparesFile(s: Fs, e: Event, file: nat) { e.Writes? || e.WritesOn? ==> FileAt(s, e.h) != file }

  predicate IsOn(e: Event, h: nat) { (e.Reads? || e.WritesOn? || e.Seeks? || e.Closes?) && e.h == h }

  /** An event that is not on h leaves the file open, and its position. */
  lemma ElsewhereAt(s: Fs, e: Event, s': Fs, h: nat, file: nat, c: Bytes, pos: nat)
    requires Did(s, e, s') && At(s, h, file, c, pos) && SparesFile(s, e, file) && !IsOn(e, h)
    ensures At(s', h, file, c, pos)
  {
    hide Did, Seen;
    DidModel(s, e, s');
    ModelElsewhere(Seen(s), e, Seen(s'), h, file, c, pos);
  }

  lemma ModelElsewhere(m: Model, e: Event, m': Model, h: nat, file: nat, c: Bytes, pos: nat)
    requires ModelStep(m, e, m') && AtPos(m, h, file, c, pos) && !IsOn(e, h)
    requires (e.Writes? || e.WritesOn?) && e.h in m.handles ==> m.handles[e.h].file != file
    ensures AtPos(m', h, file, c, pos)
  {
    hide ReadResult, WriteCount, CanWrite, Splice;
    match e
    case Removes(name) => assert m.names[name] == file ==> IsOpen(m, file);
    case Closes(g) => assert h in m.(handles := m.handles - {g}).handles;
    case _ =>
  }

  // ----- streams -----

  predicate OpensHandle(e: Event, h: nat) { (e.Opens? || e.Reopens?) && e.h == h }

  /** The file that the event opens. */
  ghost function FileOf(s: Fs, e: Event): nat {
    if e.Opens? then FileNamed(s, e.name) else if e.Reopens? then FileAt(s, e.f) else 0
  }

  /** An opening starts at the first byte. */
  lemma OpenAt(s: Fs, e: Event, s': Fs, h: nat)
    requires Did(s, e, s') && OpensHandle(e, h)
    ensures FileOf(s, e) in Seen(s).contents && At(s', h, FileOf(s, e), BytesOf(s, FileOf(s, e)), 0)
  {
    hide Did, Ok, Modelled, ModelOf, Seen;
    DidModel(s, e, s');
    DidIsSeen(s, e, s');
    ModelIsConsistent(s);
    if e.Reopens? { assert Seen(s).handles[e.f].file in FilesWithHandles(Seen(s)); }
  }

  /** The first event opens h; after it nobody closes h, seeks or writes on h, or writes to its file. */
  ghost predicate OnlyReads(ss: seq<Fs>, es: seq<Event>, h: nat) {
    && Run(ss, es) && es != [] && OpensHandle(es[0], h)
    && forall k | 1 <= k < |es| :: SparesFile(ss[k], es[k], FileOf(ss[0], es[0])) && (IsOn(es[k], h) ==> es[k].Reads?)
  }

  lemma OnlyReadsPrefix(ss: seq<Fs>, es: seq<Event>, h: nat)
    requires OnlyReads(ss, es, h) && |es| > 1
    ensures OnlyReads(ss[..|es|], es[..|es| - 1], h) && Did(ss[|es| - 1], es[|es| - 1], ss[|es|])
    ensures SparesFile(ss[|es| - 1], es[|es| - 1], FileOf(ss[0], es[0])) && (IsOn(es[|es| - 1], h) ==> es[|es| - 1].Reads?)
  {
    hide Did, SparesFile, FileOf;
    RunPrefix(ss, es);
  }

  /** What has been read of contents c when the run is in state s. */
  ghost predicate ReadSoFar(s: Fs, es: seq<Event>, h: nat, file: nat, c: Bytes) {
    var r := Joined(es, h);
    && |r| <= |c| && r == c[..|r|] && At(s, h, file, c, |r|) && (HasBuffers(es, h) ==> |r| == Min(Asked(es, h, false), |c|))
  }

  lemma {:induction false} ReadsAdvance(ss: seq<Fs>, es: seq<Event>, h: nat)
    requires OnlyReads(ss, es, h)
    ensures FileOf(ss[0], es[0]) in Seen(ss[0]).contents && ReadSoFar(ss[|es|], es, h, FileOf(ss[0], es[0]), BytesOf(ss[0], FileOf(ss[0], es[0])))
    decreases |es|
  {
    hide Did, SparesFile, FileOf, At, Seen, BytesOf;
    var n := |es| - 1;
    if n == 0 {
      assert Did(ss[0], es[0], ss[1]);
      OpenAt(ss[0], es[0], ss[1], h);
      assert Joined(es[..0], h) == [] && Asked(es[..0], h, false) == 0;
    } else {
      OnlyReadsPrefix(ss, es, h);
      ReadsAdvance(ss[..|es|], es[..n], h);
      hide OnlyReads, ReadSoFar;
      OneMoreRead(ss[n], es, ss[n + 1], h, FileOf(ss[0], es[0]), BytesOf(ss[0], FileOf(ss[0], es[0])));
    }
  }

  lemma OneMoreRead(s: Fs, es: seq<Event>, s': Fs, h: nat, file: nat, c: Bytes)
    requires es != [] && Did(s, es[|es| - 1], s') && ReadSoFar(s, es[..|es| - 1], h, file, c)
    requires SparesFile(s, es[|es| - 1], file) && (IsOn(es[|es| - 1], h) ==> es[|es| - 1].Reads?)
    ensures ReadSoFar(s', es, h, file, c)
  {
    hide Did, SparesFile, At;
    var e, r := es[|es| - 1], Joined(es[..|es| - 1], h);
    assert e in es && forall x | x in es[..|es| - 1] :: x in es;
    if e.Reads? && e.h == h {
      ReadAt(s, h, e.asked, e.bounceOk, e.data, s', file, c, |r|);
      assert |e.data| <= |c| - |r| && (e.data != [] ==> c[..|r|] + c[|r|..|r| + |e.data|] == c[..|r| + |e.data|]);
    } else {
      ElsewhereAt(s, e, s', h, file, c, |r|);
    }
  }

  /** file_read as a stream: after a handle was opened, whatever else happens, the bytes that it
      reads are the bytes of the file from the first on; with memory, as many as were asked for
      or as there are. */
  lemma ReadsAreAPrefix(ss: seq<Fs>, es: seq<Event>, h: nat)
    requires OnlyReads(ss, es, h)
    ensures FileOf(ss[0], es[0]) in Seen(ss[0]).contents
    ensures var c := BytesOf(ss[0], FileOf(ss[0], es[0]));
            Joined(es, h) <= c && (HasBuffers(es, h) ==> |Joined(es, h)| == Min(Asked(es, h, false), |c|))
  {
    hide OnlyReads, Joined, At, Seen, FileOf, BytesOf;
    ReadsAdvance(ss, es, h);
  }

  /** One read after an opening returns the first bytes of the file. */
  lemma FirstRead(s: Fs, e: Event, s1: Fs, h: nat, asked: int, data: Bytes, s2: Fs)
    requires Did(s, e, s1) && OpensHandle(e, h) && Did(s1, Reads(h, asked, true, data), s2)
    ensures FileOf(s, e) in Seen(s).contents
    ensures data == Slice(BytesOf(s, FileOf(s, e)), 0, asked)
  {
    hide Did, Seen, BytesOf, FileOf, At;
    OpenAt(s, e, s1, h);
    ReadAt(s1, h, asked, true, data, s2, FileOf(s, e), BytesOf(s, FileOf(s, e)), 0);
  }

  /** A read after file_seek returns the bytes at that position. */
  lemma SeekThenRead(s: Fs, h: nat, pos: nat, s1: Fs, asked: int, data: Bytes, s2: Fs)
    requires Did(s, Seeks(h, pos), s1) && Did(s1, Reads(h, asked, true, data), s2)
    ensures FileAt(s, h) in Seen(s).contents
    ensures data == Slice(BytesOf(s, FileAt(s, h)), pos, asked)
  {
    hide Did, Seen, FileAt, BytesOf, At;
    SeekAt(s, h, pos, s1);
    ReadAt(s1, h, asked, true, data, s2, FileAt(s, h), BytesOf(s, FileAt(s, h)), pos);
  }

  lemma SeekAt(s: Fs, h: nat, pos: nat, s1: Fs)
    requires Did(s, Seeks(h, pos), s1)
    ensures FileAt(s, h) in Seen(s).contents && At(s1, h, FileAt(s, h), BytesOf(s, FileAt(s, h)), pos)
  {
    hide Did, Ok, Modelled, ModelOf, Seen;
    DidModel(s, Seeks(h, pos), s1);
    DidIsSeen(s, Seeks(h, pos), s1);
    ModelIsConsistent(s);
    assert FileAt(s, h) in FilesWithHandles(Seen(s));
  }

  /** file_read_at with memory returns the part of the file that was asked for. */
  lemma ReadAtIs(m: Model, h: nat, asked: int, offset: nat, data: Bytes)
    requires ReadResult(m, h, asked, offset, true, data)
    ensures data == Slice(m.contents[m.handles[h].file], offset, asked)
  {
    MovedIs(m.contents[m.handles[h].file], asked, offset, true);
    hide Moved;
  }

  /** file_write_at with memory, on a file nobody denies, replaces the part of the file that was asked
      for and lies inside it, and nothing else. */
  lemma WriteAtIs(s: Fs, h: nat, off: nat, asked: int, data: Bytes, s': Fs, file: nat)
    requires Did(s, Writes(h, off, asked, true, data), s') && file in Seen(s).contents
    ensures file in Seen(s').contents && BytesOf(s', file) == if file == FileAt(s, h) then Patched(BytesOf(s, file), off, data) else BytesOf(s, file)
    ensures !WritesDenied(Seen(s), FileAt(s, h)) ==> |data| == Got(asked, BytesOf(s, FileAt(s, h)), off)
  {
    hide Did, Seen;
    DidModel(s, Writes(h, off, asked, true, data), s');
    MovedIs(BytesOf(s, FileAt(s, h)), asked, off, true);
    hide Moved;
  }

  // ----- writing -----

  /** The first event opens h; after it nobody closes h, seeks or reads on h, or writes to its file
      other than by file_write on h. */
  ghost predicate OnlyWrites(ss: seq<Fs>, es: seq<Event>, h: nat) {
    && Run(ss, es) && es != [] && OpensHandle(es[0], h)
    && forall k | 1 <= k < |es| :: if IsOn(es[k], h) then es[k].WritesOn? else SparesFile(ss[k], es[k], FileOf(ss[0], es[0]))
  }

  lemma OnlyWritesPrefix(ss: seq<Fs>, es: seq<Event>, h: nat)
    requires OnlyWrites(ss, es, h) && |es| > 1
    ensures OnlyWrites(ss[..|es|], es[..|es| - 1], h) && Did(ss[|es| - 1], es[|es| - 1], ss[|es|])
    ensures var n := |es| - 1; if IsOn(es[n], h) then es[n].WritesOn? else SparesFile(ss[n], es[n], FileOf(ss[0], es[0]))
  {
    hide Did, SparesFile, FileOf;
    RunPrefix(ss, es);
  }

  /** Nobody denies writes to the file in any state of the run. */
  ghost predicate Permitted(ss: seq<Fs>, file: nat) { forall s | s in ss :: !WritesDenied(Seen(s), file) }

  /** What has been written over contents c when the run is in its last state. */
  ghost predicate WrittenSoFar(ss: seq<Fs>, es: seq<Event>, h: nat, file: nat, c: Bytes) {
    var w := Put(es, h);
    && |ss| == |es| + 1 && |w| <= |c| && At(ss[|es|], h, file, w + c[|w|..], |w|)
    && (HasBuffers(es, h) && Permitted(ss, file) ==> |w| == Min(Asked(es, h, true), |c|))
  }

  lemma {:induction false} WritesAdvance(ss: seq<Fs>, es: seq<Event>, h: nat)
    requires OnlyWrites(ss, es, h)
    ensures FileOf(ss[0], es[0]) in Seen(ss[0]).contents && WrittenSoFar(ss, es, h, FileOf(ss[0], es[0]), BytesOf(ss[0], FileOf(ss[0], es[0])))
    decreases |es|
  {
    hide Did, SparesFile, FileOf, At, Seen, BytesOf;
    var n := |es| - 1;
    var file := FileOf(ss[0], es[0]);
    var c := BytesOf(ss[0], file);
    if n == 0 {
      assert Did(ss[0], es[0], ss[1]);
      OpenAt(ss[0], es[0], ss[1], h);
      assert Put(es[..0], h) == [] && Asked(es[..0], h, true) == 0;
      assert [] + c[0..] == c;
    } else {
      OnlyWritesPrefix(ss, es, h);
      WritesAdvance(ss[..|es|], es[..n], h);
      hide OnlyWrites, WrittenSoFar;
      OneMoreWrite(ss, es, h, file, c);
    }
  }

  lemma OneMoreWrite(ss: seq<Fs>, es: seq<Event>, h: nat, file: nat, c: Bytes)
    requires es != [] && |ss| == |es| + 1 && WrittenSoFar(ss[..|es|], es[..|es| - 1], h, file, c)
    requires var n := |es| - 1; Did(ss[n], es[n], ss[n + 1]) && if IsOn(es[n], h) then es[n].WritesOn? else SparesFile(ss[n], es[n], file)
    ensures WrittenSoFar(ss, es, h, file, c)
  {
    hide Did, SparesFile, At, WritesDenied, Seen;
    var n := |es| - 1;
    var e, w := es[n], Put(es[..n], h);
    var c' := w + c[|w|..];
    assert e in es && (forall x | x in es[..n] :: x in es) && ss[n] in ss && forall s | s in ss[..n + 1] :: s in ss;
    if e.WritesOn? && e.h == h {
      WriteAt(ss[n], h, e.asked, e.bounceOk, e.data, ss[n + 1], file, c', |w|);
      assert Patched(c', |w|, e.data) == (w + e.data) + c[|w + e.data|..];
    } else {
      ElsewhereAt(ss[n], e, ss[n + 1], h, file, c', |w|);
      assert Put(es, h) == w;
    }
  }

  /** file_write as a stream: the bytes that an opened handle writes replace those of the file from
      the first on, whatever else happens; with memory and permission, as many as were given or
      as there are. */
  lemma WritesReplaceAPrefix(ss: seq<Fs>, es: seq<Event>, h: nat)
    requires OnlyWrites(ss, es, h)
    ensures FileOf(ss[0], es[0]) in Seen(ss[0]).contents && |ss| == |es| + 1
    ensures var file, w := FileOf(ss[0], es[0]), Put(es, h); var c := BytesOf(ss[0], file);
            && |w| <= |c| && BytesOf(ss[|es|], file) == w + c[|w|..]
            && (HasBuffers(es, h) && Permitted(ss, file) ==> |w| == Min(Asked(es, h, true), |c|))
  {
    hide OnlyWrites, Put, Permitted, FileOf;
    WritesAdvance(ss, es, h);
  }

  /** A name stays on its file until it is removed. */
  lemma NameStays(s: Fs, e: Event, s': Fs, name: Name)
    requires Did(s, e, s') && name in Seen(s).names && e != Removes(name)
    ensures name in Seen(s').names && FileNamed(s', name) == FileNamed(s, name)
  {
    hide Did, Seen;
    DidModel(s, e, s');
    hide ReadResult, WriteCount, CanWrite;
  }

  lemma {:induction false} NameStaysOn(ss: seq<Fs>, es: seq<Event>, name: Name)
    requires Run(ss, es) && name in Seen(ss[0]).names && forall k | 0 <= k < |es| :: es[k] != Removes(name)
    ensures name in Seen(ss[|es|]).names && FileNamed(ss[|es|], name) == FileNamed(ss[0], name)
    decreases |es|
  {
    hide Did, Seen, FileNamed;
    if es != [] {
      RunPrefix(ss, es);
      NameStaysOn(ss[..|es|], es[..|es| - 1], name);
      NameStays(ss[|es| - 1], es[|es| - 1], ss[|es|], name);
    }
  }

  /** Read after write: what a handle has written to a file is what a new handle, opened by the
      same name, reads. */
  lemma ReadAfterWrite(ss: seq<Fs>, es: seq<Event>, h: nat, rs: seq<Fs>, fs: seq<Event>, g: nat, name: Name)
    requires OnlyWrites(ss, es, h) && es[0] == Opens(name, h) && forall k | 0 <= k < |es| :: es[k] != Removes(name)
    requires OnlyReads(rs, fs, g) && fs[0] == Opens(name, g) && rs[0] == ss[|es|]
    ensures var w, c := Put(es, h), BytesOf(ss[0], FileNamed(ss[0], name));
            && |w| <= |c| && Joined(fs, g) <= w + c[|w|..]
            && (HasBuffers(fs, g) ==> |Joined(fs, g)| == Min(Asked(fs, g, false), |c|))
  {
    hide OnlyReads, OnlyWrites, Joined, Put, Did, Run, Seen, BytesOf, FileNamed;
    WritesReplaceAPrefix(ss, es, h);
    ReadsAreAPrefix(rs, fs, g);
    OpenedFirst(ss, es, h, name);
    NameStaysOn(ss, es, name);
  }

  lemma OpenedFirst(ss: seq<Fs>, es: seq<Event>, h: nat, name: Name)
    requires OnlyWrites(ss, es, h) && es[0] == Opens(name, h)
    ensures Run(ss, es) && name in Seen(ss[0]).names
  {
    hide Did, Seen;
    assert Did(ss[0], es[0], ss[1]);
    OpenedName(ss[0], name, h, ss[1]);
  }

  lemma OpenedName(s: Fs, name: Name, h: nat, s': Fs)
    requires Did(s, Opens(name, h), s')
    ensures name in Seen(s).names
  {
    hide Did, Seen;
    DidModel(s, Opens(name, h), s');
  }

  /** A new file of size bytes reads as that many zeros. */
  lemma CreatedReadsZeros(s: Fs, name: Name, file: nat, size: nat, ss: seq<Fs>, es: seq<Event>, h: nat)
    requires |ss| == |es| + 1 > 1 && OnlyReads(ss, es, h) && Did(s, Creates(name, file, size), ss[0]) && es[0] == Opens(name, h)
    ensures (forall i | 0 <= i < |Joined(es, h)| :: Joined(es, h)[i] == 0) && |Joined(es, h)| <= size
    ensures HasBuffers(es, h) ==> |Joined(es, h)| == Min(Asked(es, h, false), size)
    ensures |BytesOf(ss[0], FileNamed(ss[0], name))| == size
  {
    hide OnlyReads, Did, Seen, Joined;
    DidModel(s, Creates(name, file, size), ss[0]);
    ReadsAreAPrefix(ss, es, h);
  }

  // ----- denying writes -----

  lemma DeniedStays(s: Fs, e: Event, s': Fs, h: nat, file: nat)
    requires Did(s, e, s') && h in Seen(s).handles && Seen(s).handles[h].denyWrite && FileAt(s, h) == file
    requires e != Denies(h, false) && e != Closes(h)
    ensures h in Seen(s').handles && Seen(s').handles[h].denyWrite && FileAt(s', h) == file
    ensures (e.Writes? || e.WritesOn?) && FileAt(s, e.h) == file ==> e.data == []
  {
    hide Did, Seen;
    DidModel(s, e, s');
    hide ReadResult, CanWrite, Splice;
    if e.Writes? || e.WritesOn? { assert FileAt(s, e.h) == file ==> WritesDenied(Seen(s), file); }
  }

  /** From file_deny_write on, until that handle allows writes again or is closed, nothing is
      written to its file through any handle. */
  lemma {:induction false} DeniedIsUnwritten(ss: seq<Fs>, es: seq<Event>, h: nat)
    requires Run(ss, es) && es != [] && es[0] == Denies(h, true) && forall k | 0 <= k < |es| :: es[k] != Denies(h, false) && es[k] != Closes(h)
    ensures h in Seen(ss[|es|]).handles && Seen(ss[|es|]).handles[h].denyWrite && FileAt(ss[|es|], h) == FileAt(ss[0], h)
    ensures forall k | 1 <= k < |es| && (es[k].Writes? || es[k].WritesOn?) && FileAt(ss[k], es[k].h) == FileAt(ss[0], h) :: es[k].data == []
    decreases |es|
  {
    hide Did, Seen, FileAt;
    var n := |es| - 1;
    RunPrefix(ss, es);
    if n == 0 {
      DeniedAtOnce(ss[0], h, ss[1]);
    } else {
      DeniedIsUnwritten(ss[..|es|], es[..n], h);
      DeniedStays(ss[n], es[n], ss[n + 1], h, FileAt(ss[0], h));
      forall k | 1 <= k < |es| && (es[k].Writes? || es[k].WritesOn?) && FileAt(ss[k], es[k].h) == FileAt(ss[0], h) ensures es[k].data == [] {
        if k < n { assert es[..n][k] == es[k] && ss[..|es|][k] == ss[k]; }
      }
    }
  }

  /** After file_allow_write writes are refused exactly if another handle on the file still denies them. */
  lemma AllowedAgain(s: Fs, h: nat, s': Fs)
    requires Did(s, Denies(h, false), s')
    ensures WritesDenied(Seen(s'), FileAt(s, h))
            <==> exists g :: g != h && g in Seen(s).handles && Seen(s).handles[g].denyWrite && FileAt(s, g) == FileAt(s, h)
  {
    hide Did, Seen;
    DidModel(s, Denies(h, false), s');
    var m, m', file := Seen(s), Seen(s'), FileAt(s, h);
    if g :| g in m'.handles && m'.handles[g].file == file && m'.handles[g].denyWrite {
      assert g != h && m.handles[g] == m'.handles[g];
    }
    if g :| g != h && g in m.handles && m.handles[g].denyWrite && FileAt(s, g) == file {
      assert m'.handles[g] == m.handles[g];
    }
  }

  lemma DeniedAtOnce(s: Fs, h: nat, s': Fs)
    requires Did(s, Denies(h, true), s')
    ensures h in Seen(s').handles && Seen(s').handles[h].denyWrite && FileAt(s', h) == FileAt(s, h)
  {
    hide Did, Seen;
    DidModel(s, Denies(h, true), s');
  }
}
