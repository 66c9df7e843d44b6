/** Loading an ELF executable into user memory (load, validate_segment, load_segment and
    install_page in Project 2/src/userprog/process.c). */
module Loader {
  import opened Machine
  import opened FsLayout
  import FsDevice

  const PGSIZE := 4096
  const PHYS_BASE := 0xC000_0000
  const STACK_PAGE := 0xBFFFF        // the number of the last user page

  // ----- user memory -----

  datatype UserPage = UserPage(data: Bytes, writable: bool)

  /** User memory by page number. */
  type Memory = map<nat, UserPage>

  /** Every page that was mapped still is, with the same contents. */
  ghost predicate Extends(m: Memory, m': Memory) { forall p | p in m :: p in m' && m'[p] == m[p] }

  /** The byte at a user address. */
  ghost predicate Holds(m: Memory, a: nat, v: byte, writable: bool) {
    a / 4096 in m && |m[a / 4096].data| == PGSIZE && m[a / 4096].data[a % 4096] == v && m[a / 4096].writable == writable
  }

  // ----- segments -----

  datatype Phdr = Phdr(typ: u32, offset: u32, vaddr: u32, filesz: u32, memsz: u32, flags: u32)

  function RoundUp(x: nat): (r: nat)
    ensures r % 4096 == 0 && x <= r < x + 4096
  {
    (x + 4095) / 4096 * 4096
  }

  /** validate_segment */
  predicate ValidSegment(ph: Phdr, fileLength: s32) {
    && ph.offset % 4096 == ph.vaddr % 4096
    && ph.offset <= U32(fileLength)
    && ph.memsz >= ph.filesz
    && ph.memsz != 0
    && ph.vaddr < PHYS_BASE
    && U32(ph.vaddr + ph.memsz) < PHYS_BASE
    && U32(ph.vaddr + ph.memsz) >= ph.vaddr
    && ph.vaddr >= PGSIZE
  }

  function FilePage(ph: Phdr): nat { ph.offset - ph.offset % 4096 }

  function MemPage(ph: Phdr): nat { ph.vaddr - ph.vaddr % 4096 }

  /** The counts that load computes, in 32-bit arithmetic. */
  function ReadBytes(ph: Phdr): nat { if ph.filesz > 0 then U32(ph.vaddr % 4096 + ph.filesz) else 0 }

  function ZeroBytes(ph: Phdr): nat {
    U32(U32(U32(U32(ph.vaddr % 4096 + ph.memsz) + 4095) / 4096 * 4096) - ReadBytes(ph))
  }

  /** The counts of a valid segment meet the assertions of load_segment without wrapping
      around, and the segment lies in user space above page 0. */
  lemma ValidSegmentIsLoadable(ph: Phdr, fileLength: s32)
    requires ValidSegment(ph, fileLength)
    ensures ReadBytes(ph) == (if ph.filesz > 0 then ph.vaddr % 4096 + ph.filesz else 0)
    ensures ReadBytes(ph) + ZeroBytes(ph) == RoundUp(ph.vaddr % 4096 + ph.memsz)
    ensures (ReadBytes(ph) + ZeroBytes(ph)) % 4096 == 0 && MemPage(ph) % 4096 == 0 && FilePage(ph) % 4096 == 0
    ensures PGSIZE <= MemPage(ph) && MemPage(ph) + ReadBytes(ph) + ZeroBytes(ph) <= PHYS_BASE
    ensures fileLength >= 0 ==> FilePage(ph) <= fileLength
  {
    assert ph.vaddr + ph.memsz < B32;
    var o, n := ph.vaddr % 4096, ph.vaddr % 4096 + ph.memsz;
    assert n < PHYS_BASE && n + 4095 < B32;
    assert MemPage(ph) + n == ph.vaddr + ph.memsz < PHYS_BASE;
    RoundUpBelow(MemPage(ph), n);
  }

  lemma RoundUpBelow(base: nat, n: nat)
    requires base % 4096 == 0 && base + n < PHYS_BASE
    ensures base + RoundUp(n) <= PHYS_BASE
  {
  }

  /** A file open for reading: its bytes and its position. */
  class File {
    const data: Bytes
    var pos: nat

    constructor (d: Bytes)
      ensures data == d && pos == 0
    {
      data, pos := d, 0;
    }

    /** file_read; it returns less than was asked for at the end of the file, and at the first
        partial sector if there is no memory for a bounce buffer. */
    method Read(size: nat, bounceOk: bool) returns (b: Bytes)
      modifies this
      ensures |b| == FsDevice.Moved(|data|, size, old(pos), bounceOk) && pos == old(pos) + |b|
      ensures b != [] ==> pos <= |data| && b == data[old(pos)..pos]
    {
      var n := FsDevice.Moved(|data|, size, pos, bounceOk);
      b := if n == 0 then [] else data[pos..pos + n];
      pos := pos + n;
    }

    /** file_seek */
    method Seek(newPos: nat)
      modifies this
      ensures pos == newPos
    {
      pos := newPos;
    }
  }

  /** Page p holds page j of a segment of which the first read bytes come from the file. */
  ghost predicate IsSegmentPage(m: Memory, p: nat, file: Bytes, ofs: nat, read: nat, j: nat, writable: bool) {
    && p in m && |m[p].data| == PGSIZE && m[p].writable == writable
    && forall k: nat | k < PGSIZE ::
         if 4096 * j + k < read then ofs + (4096 * j + k) < |file| && m[p].data[k] == file[ofs + (4096 * j + k)] else m[p].data[k] == 0
  }

  /** Page p, which was not mapped, holds its part of the segment that starts at page first. */
  ghost predicate PageLoaded(m: Memory, m': Memory, p: nat, file: Bytes, ofs: nat, first: nat, read: nat, writable: bool) {
    p !in m && first <= p && IsSegmentPage(m', p, file, ofs, read, p - first, writable)
  }

  /** The first n pages of the segment are in memory from page number first on, where nothing was
      mapped, and every other page is as before. */
  ghost predicate Loaded(m: Memory, m': Memory, file: Bytes, ofs: nat, first: nat, read: nat, n: nat, writable: bool) {
    && (n > 0 && read > 0 ==> ofs + (if read < 4096 * n then read else 4096 * n) <= |file|)
    && (forall p :: p in m' <==> p in m || first <= p < first + n)
    && (forall p: nat | first <= p < first + n :: PageLoaded(m, m', p, file, ofs, first, read, writable))
    && Extends(m, m')
  }

  /** Which allocations succeed: of a user page with its page table, of a bounce buffer to read
      into that page, and of one to read a header of the file, with the executable header first. */
  datatype Mallocs = Mallocs(page: nat -> bool, read: nat -> bool, header: nat -> bool)

  /** No page of the range is mapped yet, and all of them can be allocated. */
  ghost predicate PagesFree(m: Memory, first: nat, n: nat, mem: Mallocs) {
    forall p: nat | first <= p < first + n :: p !in m && mem.page(p)
  }

  /** There is a bounce buffer for the one read that can end inside a sector. */
  predicate EndCanBeRead(first: nat, read: nat, mem: Mallocs) { read % 512 != 0 ==> mem.read(first + read / 4096) }

  class Process {
    var memory: Memory

    constructor ()
      ensures memory == map[]
    {
      memory := map[];
    }

    /** install_page: it fails for a page that is mapped, or for lack of a page table. */
    method InstallPage(p: nat, page: UserPage, tableOk: bool) returns (ok: bool)
      modifies this
      ensures ok <==> p !in old(memory) && tableOk
      ensures memory == if ok then old(memory)[p := page] else old(memory)
    {
      ok := p !in memory && tableOk;
      if ok { memory := memory[p := page]; }
    }

    /** load_segment. It succeeds exactly when there is memory, no page is mapped yet, and the
        file is long enough. */
    method LoadSegment(file: File, ofs: nat, upage: nat, readBytes: nat, zeroBytes: nat, writable: bool, mem: Mallocs)
      returns (ok: bool)
      requires (readBytes + zeroBytes) % 4096 == 0 && upage % 4096 == 0 && ofs % 4096 == 0
      modifies this, file
      ensures Extends(old(memory), memory)
      ensures ok ==> Loaded(old(memory), memory, file.data, ofs, upage / 4096, readBytes, (readBytes + zeroBytes) / 4096, writable)
      ensures ok <==> (readBytes > 0 ==> ofs + readBytes <= |file.data|) && EndCanBeRead(upage / 4096, readBytes, mem) && PagesFree(old(memory), upage / 4096, (readBytes + zeroBytes) / 4096, mem)
    {
      hide Loaded, IsSegmentPage, EndCanBeRead;
      var rb, zb, up := readBytes, zeroBytes, upage;
      ghost var j, m0, first := 0, memory, upage / 4096;
      file.Seek(ofs);
      assert Loaded(m0, memory, file.data, ofs, first, readBytes, 0, writable) by { NothingLoaded(m0, file.data, ofs, first, readBytes, writable); }
      while rb > 0 || zb > 0
        invariant up == upage + 4096 * j && (rb + zb) + 4096 * j == readBytes + zeroBytes && zb >= 0 && rb >= 0
        invariant rb == (if readBytes > 4096 * j then readBytes - 4096 * j else 0) && file.pos == ofs + (readBytes - rb)
        invariant Loaded(m0, memory, file.data, ofs, first, readBytes, j, writable) && PagesFree(m0, first, j, mem)
        invariant readBytes / 4096 < j ==> EndCanBeRead(first, readBytes, mem)
        decreases rb + zb
      {
        var pageRead := if rb < 4096 then rb else 4096;
        var pageZero := 4096 - pageRead;
        LoadedExtends(m0, memory, file.data, ofs, first, readBytes, j, writable);
        if !mem.page(up / 4096) {
          assert up / 4096 == first + j && j < (readBytes + zeroBytes) / 4096;
          return false;
        }
        ReadIs(|file.data|, pageRead, ofs, j, readBytes, first, mem);
        var b := file.Read(pageRead, mem.read(up / 4096));
        if |b| != pageRead {
          return false;
        }
        var page := UserPage(b + Zeros(pageZero), writable);
        PageIs(file.data, ofs, readBytes, j, writable, b, pageRead, page);
        ghost var m := memory;
        var installed := InstallPage(up / 4096, page, true);
        if !installed {
          assert first + j in m0 && j < (readBytes + zeroBytes) / 4096;
          return false;
        }
        MoreLoaded(m0, m, file.data, ofs, first, readBytes, j, writable, page);
        rb, zb, up := rb - pageRead, zb - pageZero, up + 4096;
        j := j + 1;
      }
      LoadedExtends(m0, memory, file.data, ofs, first, readBytes, j, writable);
      if readBytes / 4096 >= j { WholePages(first, readBytes, j, mem); }
      ok := true;
    }
  }

  /** What the read into page j of a segment needs. */
  lemma ReadIs(length: nat, n: nat, ofs: nat, j: nat, read: nat, first: nat, mem: Mallocs)
    requires ofs % 4096 == 0 && n == (if read > 4096 * j + 4096 then 4096 else if read > 4096 * j then read - 4096 * j else 0)
    ensures var moved := FsDevice.Moved(length, n, ofs + (if read > 4096 * j then 4096 * j else read), mem.read(first + j));
            && (moved != n ==> (read > 0 && ofs + read > length) || !EndCanBeRead(first, read, mem))
            && (moved == n ==> (n > 0 ==> ofs + 4096 * j + n <= length) && (j == read / 4096 ==> EndCanBeRead(first, read, mem)))
  {
    var pos := ofs + (if read > 4096 * j then 4096 * j else read);
    hide FsDevice.Moved;
    LastPartial(read, j, n);
    if n > 0 {
      assert pos % 512 == 0;
      MovedAll(length, n, pos, mem.read(first + j));
    } else {
      NothingAsked(length, pos, mem.read(first + j));
    }
  }

  lemma MovedAll(length: nat, n: nat, pos: nat, bounceOk: bool)
    requires pos % 512 == 0 && n > 0
    ensures FsDevice.Moved(length, n, pos, bounceOk) == n <==> pos + n <= length && (bounceOk || n % 512 == 0)
  {
  }

  lemma NothingAsked(length: nat, pos: nat, bounceOk: bool)
    ensures FsDevice.Moved(length, 0, pos, bounceOk) == 0
  {
  }

  /** The read into page j ends inside a sector only if it is the last and the segment does. */
  lemma LastPartial(read: nat, j: nat, n: nat)
    requires n == (if read > 4096 * j + 4096 then 4096 else if read > 4096 * j then read - 4096 * j else 0)
    ensures n % 512 != 0 ==> j == read / 4096 && read % 512 != 0
    ensures j == read / 4096 && read % 512 != 0 ==> n % 512 != 0
  {
    if read > 4096 * j {
      if n < 4096 { LowBits(j, n); }
    } else if j == read / 4096 {
      assert read == 4096 * j;
      LowBits(j, 0);
    }
  }

  lemma LowBits(j: nat, n: nat)
    requires n < 4096
    ensures (4096 * j + n) / 4096 == j && (4096 * j + n) % 512 == n % 512
  {
  }

  lemma WholePages(first: nat, read: nat, j: nat, mem: Mallocs)
    requires read <= 4096 * j && read / 4096 >= j
    ensures EndCanBeRead(first, read, mem)
  {
    assert read == 4096 * j;
    LowBits(j, 0);
  }

  lemma NothingLoaded(m: Memory, file: Bytes, ofs: nat, first: nat, read: nat, writable: bool)
    ensures Loaded(m, m, file, ofs, first, read, 0, writable)
  {
  }

  lemma LoadedExtends(m: Memory, m': Memory, file: Bytes, ofs: nat, first: nat, read: nat, j: nat, writable: bool)
    requires Loaded(m, m', file, ofs, first, read, j, writable)
    ensures Extends(m, m') && (first + j in m' <==> first + j in m)
    ensures j > 0 && read > 0 ==> ofs + (if read < 4096 * j then read else 4096 * j) <= |file|
  {
  }

  lemma PageIs(file: Bytes, ofs: nat, read: nat, j: nat, writable: bool, b: Bytes, n: nat, page: UserPage)
    requires n <= 4096 && |b| == n && page == UserPage(b + Zeros(4096 - n), writable)
    requires n == (if read > 4096 * j + 4096 then 4096 else if read > 4096 * j then read - 4096 * j else 0)
    requires n > 0 ==> ofs + 4096 * j + n <= |file| && b == file[ofs + 4096 * j..ofs + 4096 * j + n]
    ensures IsSegmentPage(map[0 := page], 0, file, ofs, read, j, writable)
  {
  }

  lemma MoreLoaded(m: Memory, m': Memory, file: Bytes, ofs: nat, first: nat, read: nat, j: nat, writable: bool, page: UserPage)
    requires Loaded(m, m', file, ofs, first, read, j, writable) && first + j !in m'
    requires IsSegmentPage(map[0 := page], 0, file, ofs, read, j, writable)
    requires read > 0 ==> ofs + (if read < 4096 * (j + 1) then read else 4096 * (j + 1)) <= |file|
    ensures Loaded(m, m'[first + j := page], file, ofs, first, read, j + 1, writable)
  {
    var m2 := m'[first + j := page];
    assert forall p :: p in m2 <==> p in m || first <= p < first + (j + 1);
    hide IsSegmentPage;
    SamePage(m2, first + j, page, file, ofs, read, j, writable);
    forall p: nat | first <= p < first + (j + 1) ensures PageLoaded(m, m2, p, file, ofs, first, read, writable) {
      if p < first + j {
        assert PageLoaded(m, m', p, file, ofs, first, read, writable);
        PageKept(m', m2, p, file, ofs, read, p - first, writable);
      }
    }
  }

  lemma SamePage(m: Memory, p: nat, page: UserPage, file: Bytes, ofs: nat, read: nat, j: nat, writable: bool)
    requires IsSegmentPage(map[0 := page], 0, file, ofs, read, j, writable) && p in m && m[p] == page
    ensures IsSegmentPage(m, p, file, ofs, read, j, writable)
  {
  }

  lemma PageKept(m: Memory, m': Memory, p: nat, file: Bytes, ofs: nat, read: nat, j: nat, writable: bool)
    requires IsSegmentPage(m, p, file, ofs, read, j, writable) && (p in m ==> p in m' && m'[p] == m[p])
    ensures IsSegmentPage(m', p, file, ofs, read, j, writable)
  {
  }

  // ----- what a loaded segment looks like -----

  const PT_LOAD := 1

  predicate Writable(ph: Phdr) { ph.flags / 2 % 2 == 1 }

  /** Where the last page of the segment ends. */
  function SegmentEnd(ph: Phdr): nat { MemPage(ph) + RoundUp(ph.vaddr % 4096 + ph.memsz) }

  /** From its address on, memory holds the bytes of the segment in the file, followed by zeros
      up to the end of its last page, with the permission it asks for, in user space. */
  ghost predicate SegmentOk(m: Memory, file: Bytes, ph: Phdr) {
    && PGSIZE <= ph.vaddr && ph.vaddr + ph.memsz <= SegmentEnd(ph) <= PHYS_BASE
    && (ph.filesz > 0 ==> ph.offset + ph.filesz <= |file|)
    && forall a: nat | ph.vaddr <= a < SegmentEnd(ph) :: ByteOk(m, file, ph, a)
  }

  ghost predicate ByteOk(m: Memory, file: Bytes, ph: Phdr, a: nat)
    requires ph.vaddr <= a && (ph.filesz > 0 ==> ph.offset + ph.filesz <= |file|)
  {
    Holds(m, a, if a - ph.vaddr < ph.filesz then file[ph.offset + (a - ph.vaddr)] else 0, Writable(ph))
  }

  lemma SegmentIsLoaded(m: Memory, m': Memory, file: Bytes, ph: Phdr)
    requires |file| < B31 && ValidSegment(ph, |file|)
    requires Loaded(m, m', file, FilePage(ph), MemPage(ph) / 4096, ReadBytes(ph), (ReadBytes(ph) + ZeroBytes(ph)) / 4096, Writable(ph))
    ensures SegmentOk(m', file, ph)
  {
    ValidSegmentIsLoadable(ph, |file|);
    var read, n := ReadBytes(ph), (ReadBytes(ph) + ZeroBytes(ph)) / 4096;
    FileReaches(m, m', file, ph, read, n);
    forall a: nat | ph.vaddr <= a < SegmentEnd(ph) ensures ByteOk(m', file, ph, a) {
      assert MemPage(ph) / 4096 <= a / 4096 < MemPage(ph) / 4096 + n;
      assert PageLoaded(m, m', a / 4096, file, FilePage(ph), MemPage(ph) / 4096, read, Writable(ph));
      hide Loaded, ValidSegment;
      ByteLoaded(m, m', file, ph, a);
    }
  }

  lemma FileReaches(m: Memory, m': Memory, file: Bytes, ph: Phdr, read: nat, n: nat)
    requires ph.filesz > 0 ==> read == ph.vaddr % 4096 + ph.filesz && n > 0 && read <= 4096 * n
    requires ph.offset % 4096 == ph.vaddr % 4096 && Loaded(m, m', file, FilePage(ph), MemPage(ph) / 4096, read, n, Writable(ph))
    ensures ph.filesz > 0 ==> ph.offset + ph.filesz <= |file|
  {
  }

  lemma ByteLoaded(m: Memory, m': Memory, file: Bytes, ph: Phdr, a: nat)
    requires ph.vaddr <= a && ph.offset % 4096 == ph.vaddr % 4096 && (ph.filesz > 0 ==> ph.offset + ph.filesz <= |file|)
    requires ReadBytes(ph) == (if ph.filesz > 0 then ph.vaddr % 4096 + ph.filesz else 0)
    requires PageLoaded(m, m', a / 4096, file, FilePage(ph), MemPage(ph) / 4096, ReadBytes(ph), Writable(ph))
    ensures ByteOk(m', file, ph, a)
  {
    var j, k := a / 4096 - MemPage(ph) / 4096, a % 4096;
    InSegment(ph, a, j, k);
    hide ReadBytes, Writable;
    assert 4096 * j + k < ReadBytes(ph) <==> a - ph.vaddr < ph.filesz;
  }

  lemma InSegment(ph: Phdr, a: nat, j: int, k: nat)
    requires ph.vaddr <= a && ph.offset % 4096 == ph.vaddr % 4096 && j == a / 4096 - MemPage(ph) / 4096 && k == a % 4096
    ensures j >= 0 && 4096 * j + k == ph.vaddr % 4096 + (a - ph.vaddr)
    ensures FilePage(ph) + (4096 * j + k) == ph.offset + (a - ph.vaddr)
  {
  }

  /** Loading more segments leaves a loaded one as it is. */
  lemma SegmentStays(m: Memory, m': Memory, file: Bytes, ph: Phdr)
    requires SegmentOk(m, file, ph) && Extends(m, m')
    ensures SegmentOk(m', file, ph)
  {
    forall a: nat | ph.vaddr <= a < SegmentEnd(ph) ensures ByteOk(m', file, ph, a) { assert ByteOk(m, file, ph, a); }
  }

  // ----- executable files -----

  function Half(b: Bytes, i: nat): nat
    requires i + 2 <= |b|
  {
    b[i] as int + 256 * b[i + 1] as int
  }

  function Word32(b: Bytes, i: nat): u32
    requires i + 4 <= |b|
  {
    FromWord(b[i..i + 4])
  }

  const ELF_IDENT: Bytes := [127, 69, 76, 70, 1, 1, 1]

  /** The test of the executable header; what is read is h. */
  predicate HeaderOk(h: Bytes) {
    && |h| == 52 && h[..7] == ELF_IDENT && Half(h, 16) == 2 && Half(h, 18) == 3 && Word32(h, 20) == 1
    && Half(h, 42) == 32 && Half(h, 44) <= 1024
  }

  function Entry(h: Bytes): u32
    requires |h| == 52
  {
    Word32(h, 24)
  }

  function PhOff(h: Bytes): u32
    requires |h| == 52
  {
    Word32(h, 28)
  }

  function PhNum(h: Bytes): nat
    requires |h| == 52
  {
    Half(h, 44)
  }

  function DecodePhdr(b: Bytes): Phdr
    requires |b| == 32
  {
    Phdr(Word32(b, 0), Word32(b, 4), Word32(b, 8), Word32(b, 16), Word32(b, 20), Word32(b, 24))
  }

  /** Program header i of a file is there, and it has been dealt with. */
  ghost predicate HeaderDone(m: Memory, file: Bytes, i: nat)
    requires |file| >= 52
  {
    var ofs := PhOff(file[..52]) + 32 * i;
    && ofs + 32 <= |file|
    && var ph := DecodePhdr(file[ofs..ofs + 32]);
       && ph.typ !in {2, 3, 5}
       && (ph.typ == PT_LOAD ==> |file| < B31 && ValidSegment(ph, |file|) && SegmentOk(m, file, ph))
  }

  ghost predicate FileLoaded(m: Memory, file: Bytes, entry: u32) {
    && |file| >= 52 && HeaderOk(file[..52]) && entry == Entry(file[..52])
    && (forall i: nat | i < PhNum(file[..52]) :: HeaderDone(m, file, i))
    && STACK_PAGE in m && m[STACK_PAGE] == UserPage(Zeros(PGSIZE), true)
  }

  lemma HeadersStay(m: Memory, m': Memory, file: Bytes, n: nat)
    requires |file| >= 52 && Extends(m, m') && forall i: nat | i < n :: HeaderDone(m, file, i)
    ensures forall i: nat | i < n :: HeaderDone(m', file, i)
  {
    hide SegmentOk, Extends, ValidSegment;
    forall i: nat | i < n ensures HeaderDone(m', file, i) {
      assert HeaderDone(m, file, i);
      var ofs := PhOff(file[..52]) + 32 * i;
      var ph := DecodePhdr(file[ofs..ofs + 32]);
      if ph.typ == PT_LOAD { SegmentStays(m, m', file, ph); }
    }
  }

  /** The case of load for a loadable segment. */
  method LoadOne(process: Process, file: File, ph: Phdr, mem: Mallocs) returns (ok: bool)
    requires |file.data| < B31
    modifies process, file
    ensures Extends(old(process.memory), process.memory)
    ensures ok ==> SegmentOk(process.memory, file.data, ph) && Grown(old(process.memory), process.memory, ph)
    ensures ok <==> CanLoadSegment(old(process.memory), file.data, ph, mem)
  {
    hide Loaded, SegmentOk;
    if !ValidSegment(ph, |file.data|) { return false; }
    ValidSegmentIsLoadable(ph, |file.data|);
    ghost var m := process.memory;
    ok := process.LoadSegment(file, FilePage(ph), MemPage(ph), ReadBytes(ph), ZeroBytes(ph), Writable(ph), mem);
    CountsAre(m, file.data, ph, mem);
    if ok {
      SegmentIsLoaded(m, process.memory, file.data, ph);
      LoadedIsGrown(m, process.memory, file.data, ph);
    }
  }

  /** The user pages that the segment occupies. */
  predicate InSegmentPages(ph: Phdr, p: nat) { ph.vaddr / 4096 <= p < SegmentEnd(ph) / 4096 }

  ghost predicate Grown(m: Memory, m': Memory, ph: Phdr) { forall p: nat :: p in m' <==> p in m || InSegmentPages(ph, p) }

  /** A loadable segment that finds its bytes in the file and its pages free. */
  ghost predicate CanLoadSegment(m: Memory, file: Bytes, ph: Phdr, mem: Mallocs) {
    && |file| < B31 && ValidSegment(ph, |file|)
    && (ph.filesz > 0 ==> ph.offset + ph.filesz <= |file|)
    && (ph.filesz > 0 && (ph.vaddr + ph.filesz) % 512 != 0 ==> mem.read((ph.vaddr + ph.filesz) / 4096))
    && forall p: nat | InSegmentPages(ph, p) :: p !in m && mem.page(p)
  }

  lemma CountsAre(m: Memory, file: Bytes, ph: Phdr, mem: Mallocs)
    requires |file| < B31 && ValidSegment(ph, |file|)
    ensures forall p: nat :: InSegmentPages(ph, p) <==> MemPage(ph) / 4096 <= p < MemPage(ph) / 4096 + (ReadBytes(ph) + ZeroBytes(ph)) / 4096
    ensures ReadBytes(ph) > 0 <==> ph.filesz > 0
    ensures ph.filesz > 0 ==> FilePage(ph) + ReadBytes(ph) == ph.offset + ph.filesz
    ensures EndCanBeRead(MemPage(ph) / 4096, ReadBytes(ph), mem)
            <==> (ph.filesz > 0 && (ph.vaddr + ph.filesz) % 512 != 0 ==> mem.read((ph.vaddr + ph.filesz) / 4096))
  {
    ValidSegmentIsLoadable(ph, |file|);
    EndIs(ph.vaddr, ph.filesz);
  }

  lemma EndIs(vaddr: nat, filesz: nat)
    ensures (vaddr % 4096 + filesz) % 512 == (vaddr + filesz) % 512
    ensures (vaddr - vaddr % 4096) / 4096 + (vaddr % 4096 + filesz) / 4096 == (vaddr + filesz) / 4096
  {
    var q, r := vaddr / 4096, vaddr % 4096 + filesz;
    var a, b := r / 4096, r % 4096;
    assert vaddr - vaddr % 4096 == 4096 * q;
    assert r == 4096 * a + b && vaddr + filesz == 4096 * (q + a) + b;
    LowBits(a, b);
    LowBits(q + a, b);
  }

  lemma LoadedIsGrown(m: Memory, m': Memory, file: Bytes, ph: Phdr)
    requires |file| < B31 && ValidSegment(ph, |file|)
    requires Loaded(m, m', file, FilePage(ph), MemPage(ph) / 4096, ReadBytes(ph), (ReadBytes(ph) + ZeroBytes(ph)) / 4096, Writable(ph))
    ensures Grown(m, m', ph)
  {
    CountsAre(m, file, ph, Mallocs(p => true, p => true, i => true));
  }

  /** Program header i lies in the file. */
  predicate HeaderThere(file: Bytes, i: nat) { |file| >= 52 && PhOff(file[..52]) + 32 * i + 32 <= |file| }

  function Header(file: Bytes, i: nat): Phdr
    requires HeaderThere(file, i)
  {
    var ofs := PhOff(file[..52]) + 32 * i; DecodePhdr(file[ofs..ofs + 32])
  }

  /** Page p belongs to one of the first n loadable segments. */
  ghost predicate Taken(file: Bytes, n: nat, p: nat) {
    exists i: nat :: i < n && HeaderThere(file, i) && Header(file, i).typ == PT_LOAD && InSegmentPages(Header(file, i), p)
  }

  /** Header i asks for nothing that is refused, and its pages are free and not those of a
      segment in front of it. */
  ghost predicate CanLoadHeader(m: Memory, file: Bytes, i: nat, mem: Mallocs) {
    && HeaderThere(file, i) && mem.header(i + 1) && Header(file, i).typ !in {2, 3, 5}
    && (Header(file, i).typ == PT_LOAD ==>
         && CanLoadSegment(m, file, Header(file, i), mem)
         && forall p: nat | InSegmentPages(Header(file, i), p) :: !Taken(file, i, p))
  }

  ghost predicate CanLoad(m: Memory, file: Bytes, mem: Mallocs) {
    && |file| >= 52 && mem.header(0) && HeaderOk(file[..52])
    && (forall i: nat | i < PhNum(file[..52]) :: CanLoadHeader(m, file, i, mem))
    && STACK_PAGE !in m && mem.page(STACK_PAGE) && !Taken(file, PhNum(file[..52]), STACK_PAGE)
  }

  /** Memory while the first i headers have been dealt with. */
  ghost predicate LoadedUpTo(m0: Memory, m: Memory, file: Bytes, i: nat) {
    Extends(m0, m) && forall p: nat :: p in m <==> p in m0 || Taken(file, i, p)
  }

  lemma NothingTaken(m: Memory, file: Bytes)
    ensures LoadedUpTo(m, m, file, 0)
  {
  }

  lemma HeaderSkipped(m0: Memory, m: Memory, file: Bytes, i: nat)
    requires LoadedUpTo(m0, m, file, i) && HeaderThere(file, i) && Header(file, i).typ != PT_LOAD
    ensures LoadedUpTo(m0, m, file, i + 1)
  {
    forall p: nat ensures Taken(file, i + 1, p) <==> Taken(file, i, p) { TakenBy(file, i, p); }
  }

  lemma TakenBy(file: Bytes, i: nat, p: nat)
    requires HeaderThere(file, i)
    ensures Taken(file, i + 1, p) <==> Taken(file, i, p) || (Header(file, i).typ == PT_LOAD && InSegmentPages(Header(file, i), p))
  {
    hide InSegmentPages, Header;
    if Taken(file, i + 1, p) {
      var k: nat :| k < i + 1 && HeaderThere(file, k) && Header(file, k).typ == PT_LOAD && InSegmentPages(Header(file, k), p);
      assert k == i || k < i;
    }
  }

  /** Whether the segment of header i can be loaded now depends only on the memory at the start. */
  lemma SegmentTurn(m0: Memory, m: Memory, file: Bytes, i: nat, mem: Mallocs)
    requires LoadedUpTo(m0, m, file, i) && HeaderThere(file, i) && mem.header(i + 1) && Header(file, i).typ == PT_LOAD
    ensures CanLoadSegment(m, file, Header(file, i), mem) <==> CanLoadHeader(m0, file, i, mem)
  {
    hide Taken, InSegmentPages, ValidSegment, Header;
  }

  lemma SegmentAdded(m0: Memory, m: Memory, m': Memory, file: Bytes, i: nat)
    requires LoadedUpTo(m0, m, file, i) && HeaderThere(file, i) && Header(file, i).typ == PT_LOAD
    requires Extends(m, m') && Grown(m, m', Header(file, i))
    ensures LoadedUpTo(m0, m', file, i + 1)
  {
    hide InSegmentPages, Taken, Header;
    forall p: nat ensures p in m' <==> p in m0 || Taken(file, i + 1, p) { TakenBy(file, i, p); }
  }

  /** What load does with one program header. */
  method LoadHeader(process: Process, file: File, i: nat, ph: Phdr, mem: Mallocs, ghost m0: Memory) returns (ok: bool)
    requires |file.data| < B31 && HeaderThere(file.data, i) && mem.header(i + 1) && ph == Header(file.data, i)
    requires Extends(m0, process.memory) && LoadedUpTo(m0, process.memory, file.data, i)
    requires forall k: nat | k < i :: HeaderDone(process.memory, file.data, k)
    modifies process, file
    ensures Extends(m0, process.memory)
    ensures ok ==> LoadedUpTo(m0, process.memory, file.data, i + 1)
    ensures ok ==> forall k: nat | k < i + 1 :: HeaderDone(process.memory, file.data, k)
    ensures ok <==> CanLoadHeader(m0, file.data, i, mem)
  {
    hide SegmentOk, Extends, ValidSegment, CanLoadHeader, LoadedUpTo, HeaderDone, CanLoadSegment, Grown, Header;
    ghost var m := process.memory;
    if ph.typ in {2, 3, 5} { HeaderRefused(m0, file.data, i, mem); return false; }
    if ph.typ == PT_LOAD {
      SegmentTurn(m0, m, file.data, i, mem);
      ok := LoadOne(process, file, ph, mem);
      ExtendsTrans(m0, m, process.memory);
      if !ok { return; }
      HeadersStay(m, process.memory, file.data, i);
      SegmentAdded(m0, m, process.memory, file.data, i);
    } else {
      HeaderSkipped(m0, m, file.data, i);
      HeaderIgnored(m0, file.data, i, mem);
    }
    OneMore(m0, process.memory, file.data, i, mem);
    ok := true;
  }

  /** Seeks to program header i and reads it. */
  method ReadHeader(file: File, fileOfs: int, bounceOk: bool, ghost i: nat) returns (ph: Option<Phdr>)
    requires |file.data| >= 52 && |file.data| < B31
    requires if fileOfs >= 0 then fileOfs == PhOff(file.data[..52]) + 32 * i else PhOff(file.data[..52]) > |file.data|
    modifies file
    ensures ph.Some? <==> HeaderThere(file.data, i) && bounceOk
    ensures ph.Some? ==> ph.value == Header(file.data, i)
  {
    hide Header;
    if fileOfs < 0 || fileOfs > |file.data| { return None; }
    file.Seek(fileOfs);
    var b := file.Read(32, bounceOk);
    if |b| != 32 { return None; }
    HeaderIs(file.data, i, b);
    ph := Some(DecodePhdr(b));
  }

  lemma HeaderIs(file: Bytes, i: nat, b: Bytes)
    requires HeaderThere(file, i) && b == file[PhOff(file[..52]) + 32 * i..PhOff(file[..52]) + 32 * i + 32]
    ensures DecodePhdr(b) == Header(file, i)
  {
  }

  /** load, up to the arguments on the stack. It succeeds exactly when the headers are in order,
      the segments lie in the file and share no page with each other or with the stack, and there
      is memory; then every loadable segment is in memory, and an empty page for the stack. */
  method Load(process: Process, file: File, mem: Mallocs) returns (entry: Option<u32>)
    requires file.pos == 0 && |file.data| < B31
    modifies process, file
    ensures Extends(old(process.memory), process.memory)
    ensures entry.Some? ==> FileLoaded(process.memory, file.data, entry.value)
    ensures entry.Some? <==> CanLoad(old(process.memory), file.data, mem)
    ensures entry.Some? ==> forall p: nat :: p in process.memory <==> p in old(process.memory) || p == STACK_PAGE || Taken(file.data, PhNum(file.data[..52]), p)
  {
    hide SegmentOk, Extends, ValidSegment, CanLoadHeader, LoadedUpTo, HeaderDone, Header;
    ghost var m0 := process.memory;
    SelfExtends(m0);
    var ehdr := file.Read(52, mem.header(0));
    if !HeaderOk(ehdr) { return None; }
    assert ehdr == file.data[..52];
    var fileOfs := S32(PhOff(ehdr));
    NothingTaken(m0, file.data);
    for i := 0 to PhNum(ehdr)
      invariant Extends(m0, process.memory) && LoadedUpTo(m0, process.memory, file.data, i)
      invariant fileOfs >= 0 ==> fileOfs == PhOff(ehdr) + 32 * i
      invariant fileOfs < 0 ==> PhOff(ehdr) > |file.data|
      invariant forall k: nat | k < i :: HeaderDone(process.memory, file.data, k) && CanLoadHeader(m0, file.data, k, mem)
    {
      var ph := ReadHeader(file, fileOfs, mem.header(i + 1), i);
      if ph.None? { HeaderMissing(m0, file.data, i, mem); return None; }
      var ok := LoadHeader(process, file, i, ph.value, mem, m0);
      if !ok { return None; }
      fileOfs := fileOfs + 32;
    }
    ghost var loaded := process.memory;
    PagesSoFar(m0, loaded, file.data, PhNum(ehdr));
    var installed := process.InstallPage(STACK_PAGE, UserPage(Zeros(PGSIZE), true), mem.page(STACK_PAGE));
    if !installed { return None; }
    StackAdded(m0, loaded, process.memory, file.data, PhNum(ehdr));
    entry := Some(Entry(ehdr));
  }

  lemma PagesSoFar(m0: Memory, m: Memory, file: Bytes, n: nat)
    requires LoadedUpTo(m0, m, file, n)
    ensures forall p: nat :: p in m <==> p in m0 || Taken(file, n, p)
  {
  }

  lemma StackAdded(m0: Memory, m: Memory, m': Memory, file: Bytes, n: nat)
    requires |file| >= 52 && Extends(m0, m) && (forall i: nat | i < n :: HeaderDone(m, file, i))
    requires STACK_PAGE !in m && m' == m[STACK_PAGE := UserPage(Zeros(PGSIZE), true)]
    ensures Extends(m0, m') && forall i: nat | i < n :: HeaderDone(m', file, i)
  {
    hide HeaderDone;
    assert Extends(m, m');
    ExtendsTrans(m0, m, m');
    HeadersStay(m, m', file, n);
  }

  lemma HeaderMissing(m: Memory, file: Bytes, i: nat, mem: Mallocs)
    requires !HeaderThere(file, i) || !mem.header(i + 1)
    ensures !CanLoadHeader(m, file, i, mem)
  {
  }

  lemma HeaderRefused(m: Memory, file: Bytes, i: nat, mem: Mallocs)
    requires HeaderThere(file, i) && Header(file, i).typ in {2, 3, 5}
    ensures !CanLoadHeader(m, file, i, mem)
  {
  }

  lemma HeaderIgnored(m: Memory, file: Bytes, i: nat, mem: Mallocs)
    requires HeaderThere(file, i) && mem.header(i + 1) && Header(file, i).typ !in {1, 2, 3, 5}
    ensures CanLoadHeader(m, file, i, mem)
  {
  }

  lemma SelfExtends(m: Memory)
    ensures Extends(m, m)
  {
  }

  lemma ExtendsTrans(a: Memory, b: Memory, c: Memory)
    requires Extends(a, b) && Extends(b, c)
    ensures Extends(a, c)
  {
  }

  lemma OneMore(m0: Memory, m: Memory, file: Bytes, i: nat, mem: Mallocs)
    requires HeaderThere(file, i) && (Header(file, i).typ == PT_LOAD ==> SegmentOk(m, file, Header(file, i)))
    requires CanLoadHeader(m0, file, i, mem)
    ensures HeaderDone(m, file, i)
  {
    hide SegmentOk, ValidSegment, Taken;
  }

  /** Loadable segments of a program that can be loaded never share a page. */
  lemma SegmentsAreApart(m: Memory, file: Bytes, mem: Mallocs, i: nat, j: nat)
    requires CanLoad(m, file, mem) && i < j < PhNum(file[..52])
    ensures HeaderThere(file, i) && HeaderThere(file, j)
    ensures Header(file, i).typ == PT_LOAD && Header(file, j).typ == PT_LOAD ==>
              SegmentEnd(Header(file, i)) <= MemPage(Header(file, j)) || SegmentEnd(Header(file, j)) <= MemPage(Header(file, i))
  {
    hide Header, CanLoadHeader;
    HeaderLoads(m, file, i, mem);
    HeaderLoads(m, file, j, mem);
    var a, b := Header(file, i), Header(file, j);
    if a.typ == PT_LOAD && b.typ == PT_LOAD {
      var p := if a.vaddr / 4096 <= b.vaddr / 4096 then b.vaddr / 4096 else a.vaddr / 4096;
      assert InSegmentPages(a, p) ==> Taken(file, j, p);
      PagesApart(a, b, p);
    }
  }

  lemma HeaderLoads(m: Memory, file: Bytes, i: nat, mem: Mallocs)
    requires CanLoadHeader(m, file, i, mem)
    ensures HeaderThere(file, i)
    ensures var ph := Header(file, i); ph.typ == PT_LOAD ==> ph.memsz > 0 && forall p: nat | InSegmentPages(ph, p) :: !Taken(file, i, p)
  {
  }

  /** Two ranges of pages without a common page at p, the larger of their first pages. */
  lemma PagesApart(a: Phdr, b: Phdr, p: nat)
    requires p == (if a.vaddr / 4096 <= b.vaddr / 4096 then b.vaddr / 4096 else a.vaddr / 4096) && a.memsz > 0 && b.memsz > 0
    requires !(InSegmentPages(a, p) && InSegmentPages(b, p))
    ensures SegmentEnd(a) <= MemPage(b) || SegmentEnd(b) <= MemPage(a)
  {
    assert SegmentEnd(a) % 4096 == 0 && SegmentEnd(b) % 4096 == 0;
    assert MemPage(a) == 4096 * (a.vaddr / 4096) && MemPage(b) == 4096 * (b.vaddr / 4096);
  }
}
