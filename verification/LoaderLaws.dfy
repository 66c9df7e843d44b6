/** Which executables are loaded and what is in memory then, in terms of the bytes of the file
    alone and in unbounded arithmetic. */
module LoaderLaws {
  import opened Machine
  import FsLayout
  import opened Loader

  type Bytes = FsLayout.Bytes

  /** The n bytes from position i on as a little-endian number. */
  function Le(b: Bytes, i: nat, n: nat): nat
    decreases n
  {
    if n == 0 || i >= |b| then 0 else b[i] as int + 256 * Le(b, i + 1, n - 1)
  }

  /** The 32-bit field at offset k of program header i. */
  function Field(file: Bytes, i: nat, k: nat): nat { Le(file, Le(file, 28, 4) + 32 * i + k, 4) }

  function TypeOf(file: Bytes, i: nat): nat { Field(file, i, 0) }
  function OffsetOf(file: Bytes, i: nat): nat { Field(file, i, 4) }
  function AddressOf(file: Bytes, i: nat): nat { Field(file, i, 8) }
  function FileSize(file: Bytes, i: nat): nat { Field(file, i, 16) }
  function MemSize(file: Bytes, i: nat): nat { Field(file, i, 20) }
  function FlagsOf(file: Bytes, i: nat): nat { Field(file, i, 24) }
  function Headers(file: Bytes): nat { Le(file, 44, 2) }

  /** A 32-bit executable of version 1 for the 80386, with at most 1024 program headers of 32 bytes. */
  predicate IsExecutable(file: Bytes) {
    && |file| >= 52 && file[0] == 0x7F && file[1] == 69 && file[2] == 76 && file[3] == 70
    && file[4] == 1 && file[5] == 1 && file[6] == 1
    && Le(file, 16, 2) == 2 && Le(file, 18, 2) == 3 && Le(file, 20, 4) == 1 && Le(file, 42, 2) == 32 && Headers(file) <= 1024
  }

  /** The segment is not empty, holds its part of the file, lies in user space above page 0, and has
      the same place in a page of the file and of memory. */
  predicate SegmentInOrder(offset: nat, vaddr: nat, filesz: nat, memsz: nat, length: nat) {
    && offset % 4096 == vaddr % 4096 && offset <= length
    && 0 < memsz && filesz <= memsz && 4096 <= vaddr && vaddr + memsz < 0xC000_0000
  }

  /** validate_segment accepts exactly such segments; its tests for wrap-around lose none. */
  lemma AcceptedExactly(ph: Phdr, length: s32)
    requires length >= 0
    ensures ValidSegment(ph, length) <==> SegmentInOrder(ph.offset, ph.vaddr, ph.filesz, ph.memsz, length)
  {
  }

  /** Page p holds a byte of segment i. */
  predicate Occupies(file: Bytes, i: nat, p: nat) {
    TypeOf(file, i) == 1 && AddressOf(file, i) / 4096 <= p <= (AddressOf(file, i) + MemSize(file, i) - 1) / 4096
  }

  ghost predicate SegmentLoadable(m: Memory, file: Bytes, i: nat, mem: Mallocs) {
    var offset, vaddr, filesz := OffsetOf(file, i), AddressOf(file, i), FileSize(file, i);
    && SegmentInOrder(offset, vaddr, filesz, MemSize(file, i), |file|)
    && (filesz > 0 ==> offset + filesz <= |file| && ((vaddr + filesz) % 512 != 0 ==> mem.read((vaddr + filesz) / 4096)))
    && forall p: nat | Occupies(file, i, p) :: p !in m && mem.page(p) && p != 0xBFFFF && forall j: nat | j < i :: !Occupies(file, j, p)
  }

  /** The file can be loaded: its headers are there and ask for nothing that is refused, its segments
      are in order, lie in the file and occupy distinct free pages other than that of the stack,
      and there is memory. */
  ghost predicate Loadable(m: Memory, file: Bytes, mem: Mallocs) {
    && IsExecutable(file) && mem.header(0)
    && (forall i: nat | i < Headers(file) ::
          && Le(file, 28, 4) + 32 * i + 32 <= |file| && mem.header(i + 1) && TypeOf(file, i) !in {2, 3, 5}
          && (TypeOf(file, i) == 1 ==> SegmentLoadable(m, file, i, mem)))
    && 0xBFFFF !in m && mem.page(0xBFFFF)
  }

  lemma WordIs(b: Bytes, i: nat)
    requires i + 4 <= |b|
    ensures Word32(b, i) == Le(b, i, 4)
  {
    assert Le(b, i, 4) == b[i] as int + 256 * (b[i + 1] as int + 256 * (b[i + 2] as int + 256 * (b[i + 3] as int)));
  }

  lemma HalfIs(b: Bytes, i: nat)
    requires i + 2 <= |b|
    ensures Half(b, i) == Le(b, i, 2)
  {
    assert Le(b, i, 2) == b[i] as int + 256 * Le(b, i + 1, 1);
  }

  lemma {:induction false} LePrefix(file: Bytes, b: Bytes, at: nat, i: nat, n: nat)
    requires at + |b| <= |file| && b == file[at..at + |b|] && i + n <= |b|
    ensures Le(b, i, n) == Le(file, at + i, n)
    decreases n
  {
    if n > 0 { LePrefix(file, b, at, i + 1, n - 1); }
  }

  lemma ExecutableIs(file: Bytes)
    requires |file| >= 52
    ensures HeaderOk(file[..52]) <==> IsExecutable(file)
    ensures PhOff(file[..52]) == Le(file, 28, 4) && PhNum(file[..52]) == Headers(file) && Entry(file[..52]) == Le(file, 24, 4)
  {
    var h := file[..52];
    HalfIs(h, 16); HalfIs(h, 18); HalfIs(h, 42); HalfIs(h, 44);
    WordIs(h, 20); WordIs(h, 24); WordIs(h, 28);
    LePrefix(file, h, 0, 16, 2); LePrefix(file, h, 0, 18, 2); LePrefix(file, h, 0, 42, 2); LePrefix(file, h, 0, 44, 2);
    LePrefix(file, h, 0, 20, 4); LePrefix(file, h, 0, 24, 4); LePrefix(file, h, 0, 28, 4);
    hide Le, Half, Word32;
    IdentIs(file);
  }

  lemma IdentIs(file: Bytes)
    requires |file| >= 52
    ensures file[..52][..7] == ELF_IDENT
            <==> file[0] == 0x7F && file[1] == 69 && file[2] == 76 && file[3] == 70 && file[4] == 1 && file[5] == 1 && file[6] == 1
  {
    var h := file[..52][..7];
    assert forall k | 0 <= k < 7 :: h[k] == file[k];
    if h == ELF_IDENT { assert h[0] == 127 && h[1] == 69 && h[2] == 76 && h[3] == 70 && h[4] == 1 && h[5] == 1 && h[6] == 1; }
  }

  lemma HeaderFieldsAre(file: Bytes, i: nat)
    requires HeaderThere(file, i)
    ensures Header(file, i) == Phdr(TypeOf(file, i), OffsetOf(file, i), AddressOf(file, i), FileSize(file, i), MemSize(file, i), FlagsOf(file, i))
  {
    ExecutableIs(file);
    hide Le, Word32, IsExecutable, HeaderOk;
    PhdrIs(file, Le(file, 28, 4) + 32 * i);
  }

  lemma PhdrIs(file: Bytes, ofs: nat)
    requires ofs + 32 <= |file|
    ensures var ph := DecodePhdr(file[ofs..ofs + 32]);
            && ph.typ == Le(file, ofs, 4) && ph.offset == Le(file, ofs + 4, 4) && ph.vaddr == Le(file, ofs + 8, 4)
            && ph.filesz == Le(file, ofs + 16, 4) && ph.memsz == Le(file, ofs + 20, 4) && ph.flags == Le(file, ofs + 24, 4)
  {
    hide Le, Word32;
    FieldIs(file, ofs, 0);
    FieldIs(file, ofs, 4);
    FieldIs(file, ofs, 8);
    FieldIs(file, ofs, 16);
    FieldIs(file, ofs, 20);
    FieldIs(file, ofs, 24);
  }

  lemma FieldIs(file: Bytes, ofs: nat, k: nat)
    requires ofs + 32 <= |file| && k <= 28
    ensures Word32(file[ofs..ofs + 32], k) == Le(file, ofs + k, 4)
  {
    WordIs(file[ofs..ofs + 32], k);
    LePrefix(file, file[ofs..ofs + 32], ofs, k, 4);
  }

  /** The pages of a segment in order, by its first and its last byte. */
  lemma PagesAre(ph: Phdr, p: nat)
    requires ph.memsz > 0
    ensures InSegmentPages(ph, p) <==> ph.vaddr / 4096 <= p <= (ph.vaddr + ph.memsz - 1) / 4096
  {
    var q, r := ph.vaddr / 4096, ph.vaddr % 4096;
    var n := RoundUp(r + ph.memsz);
    assert MemPage(ph) == 4096 * q && ph.vaddr == 4096 * q + r;
    assert SegmentEnd(ph) / 4096 == q + n / 4096;
    assert (ph.vaddr + ph.memsz - 1) / 4096 == q + (r + ph.memsz - 1) / 4096;
    assert n / 4096 == (r + ph.memsz - 1) / 4096 + 1;
  }

  lemma TakenIs(file: Bytes, n: nat, p: nat)
    requires forall i: nat | i < n :: HeaderThere(file, i) && (TypeOf(file, i) == 1 ==> MemSize(file, i) > 0)
    ensures Taken(file, n, p) <==> exists i: nat :: i < n && Occupies(file, i, p)
  {
    hide Header, HeaderThere, InSegmentPages, Occupies, TypeOf, MemSize;
    if i: nat :| i < n && HeaderThere(file, i) && Header(file, i).typ == PT_LOAD && InSegmentPages(Header(file, i), p) { OccupiesIs(file, i, p); }
    if i: nat :| i < n && Occupies(file, i, p) { OccupiesIs(file, i, p); assert HeaderThere(file, i); }
  }

  lemma OccupiesIs(file: Bytes, i: nat, p: nat)
    requires HeaderThere(file, i) && (TypeOf(file, i) == 1 ==> MemSize(file, i) > 0)
    ensures Occupies(file, i, p) <==> Header(file, i).typ == PT_LOAD && InSegmentPages(Header(file, i), p)
  {
    HeaderFieldsAre(file, i);
    hide Header, InSegmentPages, Field;
    if TypeOf(file, i) == 1 { PagesAre(Header(file, i), p); }
  }

  /** What both descriptions give of header i. */
  ghost predicate HeaderSound(file: Bytes, i: nat) { HeaderThere(file, i) && (TypeOf(file, i) == 1 ==> MemSize(file, i) > 0) }

  /** One segment: the two conditions differ by the page of the stack alone. */
  lemma SegmentIs(m: Memory, file: Bytes, i: nat, mem: Mallocs)
    requires |file| < B31 && HeaderThere(file, i) && mem.header(i + 1) && TypeOf(file, i) == 1 && forall j: nat | j < i :: HeaderSound(file, j)
    ensures CanLoadHeader(m, file, i, mem) && !Occupies(file, i, STACK_PAGE) <==> SegmentLoadable(m, file, i, mem)
  {
    hide Header, HeaderThere, ValidSegment, SegmentInOrder, Taken, Field, TypeOf, OffsetOf, AddressOf, FileSize, MemSize, FlagsOf, Occupies, InSegmentPages;
    HeaderFieldsAre(file, i);
    var ph := Header(file, i);
    AcceptedExactly(ph, |file|);
    if ValidSegment(ph, |file|) {
      ValidIsNotEmpty(ph, |file|);
      PagesOf(file, i);
      TakenOf(file, i);
    }
  }

  lemma ValidIsNotEmpty(ph: Phdr, length: s32)
    requires ValidSegment(ph, length)
    ensures ph.memsz > 0
  {
  }

  lemma PagesOf(file: Bytes, i: nat)
    requires HeaderThere(file, i) && TypeOf(file, i) == 1 && MemSize(file, i) > 0
    ensures forall p: nat :: InSegmentPages(Header(file, i), p) <==> Occupies(file, i, p)
  {
    HeaderFieldsAre(file, i);
    hide Header, InSegmentPages, Field, Occupies;
    forall p: nat ensures InSegmentPages(Header(file, i), p) <==> Occupies(file, i, p) { OccupiesIs(file, i, p); }
  }

  lemma TakenOf(file: Bytes, n: nat)
    requires forall j: nat | j < n :: HeaderSound(file, j)
    ensures forall p: nat :: Taken(file, n, p) <==> exists j: nat :: j < n && Occupies(file, j, p)
  {
    hide Taken, Occupies, TypeOf, MemSize, HeaderThere;
    assert forall j: nat | j < n :: HeaderSound(file, j) ==> HeaderThere(file, j) && (TypeOf(file, j) == 1 ==> MemSize(file, j) > 0);
    forall p: nat ensures Taken(file, n, p) <==> exists j: nat :: j < n && Occupies(file, j, p) { TakenIs(file, n, p); }
  }

  lemma CanLoadIsSound(m: Memory, file: Bytes, i: nat, mem: Mallocs)
    requires CanLoadHeader(m, file, i, mem)
    ensures HeaderSound(file, i) && mem.header(i + 1) && TypeOf(file, i) !in {2, 3, 5}
  {
    HeaderFieldsAre(file, i);
    hide Header, HeaderThere, Field, Taken, InSegmentPages;
  }

  lemma OtherHeader(m: Memory, file: Bytes, i: nat, mem: Mallocs)
    requires HeaderThere(file, i) && mem.header(i + 1) && TypeOf(file, i) !in {1, 2, 3, 5}
    ensures CanLoadHeader(m, file, i, mem)
  {
    HeaderFieldsAre(file, i);
    hide Header, HeaderThere, Field, Taken, InSegmentPages;
  }

  lemma CanLoadIsLoadable(m: Memory, file: Bytes, mem: Mallocs)
    requires |file| < B31 && CanLoad(m, file, mem)
    ensures Loadable(m, file, mem)
  {
    ExecutableIs(file);
    var n := Headers(file);
    hide CanLoadHeader, Taken, Le, Occupies, SegmentLoadable, HeaderSound, IsExecutable, HeaderOk, TypeOf, Headers, PhNum, HeaderThere;
    forall i: nat | i < n ensures HeaderSound(file, i) && mem.header(i + 1) && TypeOf(file, i) !in {2, 3, 5} { CanLoadIsSound(m, file, i, mem); }
    TakenOf(file, n);
    forall i: nat | i < n
      ensures Le(file, 28, 4) + 32 * i + 32 <= |file| && (TypeOf(file, i) == 1 ==> SegmentLoadable(m, file, i, mem))
    {
      SoundHeader(file, i);
      if TypeOf(file, i) == 1 { SegmentIs(m, file, i, mem); }
    }
  }

  lemma SoundHeader(file: Bytes, i: nat)
    requires HeaderSound(file, i)
    ensures HeaderThere(file, i) && Le(file, 28, 4) + 32 * i + 32 <= |file|
  {
    ExecutableIs(file);
  }

  lemma LoadableIsCanLoad(m: Memory, file: Bytes, mem: Mallocs)
    requires |file| < B31 && Loadable(m, file, mem)
    ensures CanLoad(m, file, mem)
  {
    ExecutableIs(file);
    var n := Headers(file);
    hide CanLoadHeader, Taken, Le, Occupies, SegmentLoadable, HeaderSound, IsExecutable, HeaderOk, TypeOf, Headers, PhNum, HeaderThere;
    forall i: nat | i < n ensures HeaderSound(file, i) { LoadableIsSound(m, file, i, mem); }
    TakenOf(file, n);
    forall i: nat | i < n ensures CanLoadHeader(m, file, i, mem) && !Occupies(file, i, STACK_PAGE) {
      SoundHeader(file, i);
      if TypeOf(file, i) == 1 { SegmentIs(m, file, i, mem); } else { OtherHeader(m, file, i, mem); NotOccupied(file, i); }
    }
  }

  lemma NotOccupied(file: Bytes, i: nat)
    requires TypeOf(file, i) != 1
    ensures !Occupies(file, i, STACK_PAGE)
  {
  }

  lemma LoadableIsSound(m: Memory, file: Bytes, i: nat, mem: Mallocs)
    requires Loadable(m, file, mem) && i < Headers(file)
    ensures HeaderSound(file, i)
  {
    ExecutableIs(file);
    hide Le, Field;
  }

  /** load succeeds exactly for the loadable files. */
  lemma LoadsExactly(m: Memory, file: Bytes, mem: Mallocs)
    requires |file| < B31
    ensures CanLoad(m, file, mem) <==> Loadable(m, file, mem)
  {
    hide CanLoad, Loadable;
    if CanLoad(m, file, mem) { CanLoadIsLoadable(m, file, mem); }
    if Loadable(m, file, mem) { LoadableIsCanLoad(m, file, mem); }
  }

  // ----- what is in memory then -----

  /** Every byte of segment i is in memory at its address, those beyond its part of the file and to
      the end of its last page are zero, and it can be written exactly if bit 1 of its flags is set. */
  ghost predicate SegmentInMemory(m: Memory, file: Bytes, i: nat) {
    var offset, vaddr, filesz := OffsetOf(file, i), AddressOf(file, i), FileSize(file, i);
    && (filesz > 0 ==> offset + filesz <= |file|)
    && forall a: nat | vaddr <= a && a / 4096 <= (vaddr + MemSize(file, i) - 1) / 4096 ::
         ByteAt(m, a, if a - vaddr < filesz then file[offset + (a - vaddr)] else 0, FlagsOf(file, i) / 2 % 2 == 1)
  }

  ghost predicate ByteAt(m: Memory, a: nat, v: byte, writable: bool) {
    a / 4096 in m && a % 4096 < |m[a / 4096].data| && m[a / 4096].data[a % 4096] == v && m[a / 4096].writable == writable
  }

  lemma SegmentBytes(m: Memory, file: Bytes, i: nat)
    requires HeaderThere(file, i) && TypeOf(file, i) == 1 && MemSize(file, i) > 0 && SegmentOk(m, file, Header(file, i))
    ensures SegmentInMemory(m, file, i)
  {
    hide Header, HeaderThere, Field, TypeOf, InSegmentPages;
    HeaderFieldsAre(file, i);
    var ph := Header(file, i);
    hide OffsetOf, AddressOf, FileSize, MemSize, FlagsOf, ByteAt;
    forall a: nat | ph.vaddr <= a && a / 4096 <= (ph.vaddr + ph.memsz - 1) / 4096
      ensures ByteAt(m, a, if a - ph.vaddr < ph.filesz then file[ph.offset + (a - ph.vaddr)] else 0, ph.flags / 2 % 2 == 1)
    {
      PagesAre(ph, a / 4096);
      BeforeEnd(ph, a);
      ByteIs(m, file, ph, a);
    }
  }

  lemma ByteIs(m: Memory, file: Bytes, ph: Phdr, a: nat)
    requires SegmentOk(m, file, ph) && ph.vaddr <= a < SegmentEnd(ph)
    ensures ByteAt(m, a, if a - ph.vaddr < ph.filesz then file[ph.offset + (a - ph.vaddr)] else 0, ph.flags / 2 % 2 == 1)
  {
    assert ByteOk(m, file, ph, a);
  }

  lemma BeforeEnd(ph: Phdr, a: nat)
    requires ph.vaddr <= a && (InSegmentPages(ph, a / 4096) <==> ph.vaddr / 4096 <= a / 4096 <= (ph.vaddr + ph.memsz - 1) / 4096)
    requires a / 4096 <= (ph.vaddr + ph.memsz - 1) / 4096
    ensures a < SegmentEnd(ph)
  {
    assert InSegmentPages(ph, a / 4096);
  }

  /** After load the entry point is that of the file, every loadable segment is in memory, and the
      page of the stack is empty and can be written. */
  lemma LoadedIsInMemory(m: Memory, file: Bytes, entry: u32)
    requires FileLoaded(m, file, entry)
    ensures IsExecutable(file) && entry == Le(file, 24, 4)
    ensures forall i: nat | i < Headers(file) && TypeOf(file, i) == 1 :: SegmentInMemory(m, file, i)
    ensures 0xBFFFF in m && m[0xBFFFF].data == seq(4096, _ => 0) && m[0xBFFFF].writable
  {
    ExecutableIs(file);
    StackIsEmpty(m, file, entry);
    hide Le, IsExecutable, HeaderOk, SegmentInMemory, TypeOf, Headers, PhNum, SegmentOk;
    forall i: nat | i < Headers(file) && TypeOf(file, i) == 1 ensures SegmentInMemory(m, file, i) {
      assert HeaderDone(m, file, i);
      HeaderFieldsAre(file, i);
      DoneSegment(m, file, i);
      SegmentBytes(m, file, i);
    }
  }

  lemma DoneSegment(m: Memory, file: Bytes, i: nat)
    requires |file| >= 52 && HeaderDone(m, file, i)
    ensures HeaderThere(file, i) && (TypeOf(file, i) == 1 ==> MemSize(file, i) > 0 && SegmentOk(m, file, Header(file, i)))
  {
    hide SegmentOk, Field;
    if HeaderThere(file, i) { HeaderFieldsAre(file, i); }
  }

  lemma StackIsEmpty(m: Memory, file: Bytes, entry: u32)
    requires FileLoaded(m, file, entry)
    ensures 0xBFFFF in m && m[0xBFFFF].data == seq(4096, _ => 0) && m[0xBFFFF].writable
  {
    hide HeaderDone, HeaderOk;
  }
}
