/** Two-level page tables (Project 2/src/userprog/pagedir.c, Project 2/src/threads/pte.h; IA-32
    Architectures Software Developer's Manual, volume 3A, section 3.7.6). Pages are named by
    their physical addresses. */
module Pagedir {
  import opened Machine
  import opened Bitmaps

  const ENTRIES := 1024
  const USER_TABLES := 768          // pd_no (PHYS_BASE)
  const USER_PAGES := 0xC_0000
  const PHYS_BASE := 0xC000_0000

  // ----- virtual addresses -----

  function PdNo(va: nat): nat { va / 0x40_0000 }

  function PtNo(va: nat): nat { va / 0x1000 % 0x400 }

  function PgOfs(va: nat): nat { va % 0x1000 }

  /** The number of the page that an address lies in. */
  function PageNo(va: nat): nat { va / 0x1000 }

  /** The parts of an address determine it. */
  lemma AddressParts(va: nat)
    ensures va == PdNo(va) * 0x40_0000 + PtNo(va) * 0x1000 + PgOfs(va)
    ensures PdNo(va) == PageNo(va) / 1024 && PtNo(va) == PageNo(va) % 1024
    ensures va < PHYS_BASE <==> PageNo(va) < USER_PAGES
  {
  }

  // ----- entries -----

  type Word = bv32

  datatype Flag = P | W | U | A | D

  /** Present, writable, for the user, accessed, dirty. */
  function FlagBit(f: Flag): Word {
    match f case P => 0x1 case W => 0x2 case U => 0x4 case A => 0x20 case D => 0x40
  }

  const PTE_ADDR: Word := 0xffff_f000

  predicate Has(w: Word, f: Flag) { And(w, FlagBit(f)) != 0 }

  function Put(w: Word, f: Flag, v: bool): Word {
    if v then Or(w, FlagBit(f)) else AndNot(w, FlagBit(f))
  }

  /** A page of physical memory, by its address. */
  datatype Frame = Frame(address: Word)

  /** pte_get_page and pde_get_pt */
  function Page(w: Word): Frame { Frame(And(w, PTE_ADDR)) }

  predicate Aligned(page: Frame) { And(page.address, 0xfff) == 0 }

  lemma BitsMeet(f: Flag, g: Flag)
    ensures And(FlagBit(f), FlagBit(g)) == if f == g then FlagBit(g) else 0
    ensures FlagBit(g) != 0 && And(FlagBit(f), PTE_ADDR) == 0
  {
    match f case P => BitP(g); case W => BitW(g); case U => BitU(g); case A => BitA(g); case D => BitD(g);
  }

  lemma BitP(g: Flag)
    ensures And(FlagBit(P), FlagBit(g)) == (if g == P then FlagBit(g) else 0) && FlagBit(g) != 0
  {
    match g case P => case W => case U => case A => case D =>
  }

  lemma BitW(g: Flag)
    ensures And(FlagBit(W), FlagBit(g)) == (if g == W then FlagBit(g) else 0) && FlagBit(g) != 0
  {
    match g case P => case W => case U => case A => case D =>
  }

  lemma BitU(g: Flag)
    ensures And(FlagBit(U), FlagBit(g)) == (if g == U then FlagBit(g) else 0) && FlagBit(g) != 0
  {
    match g case P => case W => case U => case A => case D =>
  }

  lemma BitA(g: Flag)
    ensures And(FlagBit(A), FlagBit(g)) == (if g == A then FlagBit(g) else 0) && FlagBit(g) != 0
  {
    match g case P => case W => case U => case A => case D =>
  }

  lemma BitD(g: Flag)
    ensures And(FlagBit(D), FlagBit(g)) == (if g == D then FlagBit(g) else 0) && FlagBit(g) != 0
  {
    match g case P => case W => case U => case A => case D =>
  }

  lemma OneFlag(w: Word, f: Flag)
    ensures And(w, FlagBit(f)) == 0 || And(w, FlagBit(f)) == FlagBit(f)
  {
    match f case P => case W => case U => case A => case D =>
  }

  lemma NothingMeets(x: Word)
    ensures And(0, x) == 0
  {
  }

  /** Changing a flag changes no other flag and not the page. */
  lemma PutFlag(w: Word, f: Flag, g: Flag, v: bool)
    ensures Has(Put(w, f, v), g) == (if f == g then v else Has(w, g)) && Page(Put(w, f, v)) == Page(w)
  {
    hide And, Or, AndNot, FlagBit;
    BitsMeet(f, g);
    OneFlag(w, g);
    OrDistributes(w, FlagBit(f), FlagBit(g));
    AndNotDistributes(w, FlagBit(f), FlagBit(g));
    OrDistributes(w, FlagBit(f), PTE_ADDR);
    AndNotDistributes(w, FlagBit(f), PTE_ADDR);
    OrUnits(FlagBit(g));
    AndNotUnits(FlagBit(g));
    OrUnits(0);
    AndNotUnits(0);
    OrUnits(And(w, PTE_ADDR));
    AndNotUnits(And(w, PTE_ADDR));
  }

  /** pde_create */
  function PdeCreate(table: Frame): Word { Or(Or(Or(table.address, FlagBit(U)), FlagBit(P)), FlagBit(W)) }

  /** pte_create_user */
  function PteCreateUser(page: Frame, writable: bool): Word {
    Or(if writable then Or(Or(page.address, FlagBit(P)), FlagBit(W)) else Or(page.address, FlagBit(P)), FlagBit(U))
  }

  lemma AlignedPage(page: Frame)
    requires Aligned(page)
    ensures Page(page.address) == page && forall f :: !Has(page.address, f)
  {
    AlignedIsPage(page);
    forall f ensures !Has(page.address, f) { AlignedHasNone(page, f); }
  }

  lemma AlignedIsPage(page: Frame)
    requires Aligned(page)
    ensures Page(page.address) == page
  {
  }

  lemma AndAssociates(a: Word, b: Word, c: Word)
    ensures And(And(a, b), c) == And(a, And(b, c))
  {
  }

  lemma BitIsLow(f: Flag)
    ensures And(0xfff, FlagBit(f)) == FlagBit(f)
  {
    match f case P => case W => case U => case A => case D =>
  }

  lemma AlignedHasNone(page: Frame, f: Flag)
    requires Aligned(page)
    ensures !Has(page.address, f)
  {
    hide And, FlagBit;
    AndAssociates(page.address, 0xfff, FlagBit(f));
    BitIsLow(f);
    NothingMeets(FlagBit(f));
  }

  lemma PteCreated(page: Frame, writable: bool, f: Flag)
    requires Aligned(page)
    ensures Page(PteCreateUser(page, writable)) == page
    ensures Has(PteCreateUser(page, writable), f) == (f == P || f == U || (f == W && writable))
  {
    AlignedPage(page);
    hide Has, Page, Or, And;
    var w1 := Put(page.address, P, true);
    var w2 := Put(w1, W, true);
    PutFlag(page.address, P, f, true);
    PutFlag(w1, W, f, true);
    PutFlag(w1, U, f, true);
    PutFlag(w2, U, f, true);
  }

  lemma PdeCreated(table: Frame)
    requires Aligned(table)
    ensures Page(PdeCreate(table)) == table && Has(PdeCreate(table), P) && PdeCreate(table) != 0
  {
    AlignedPage(table);
    AbsentIsZero();
    hide Has, Page, Or, And;
    var w1 := Put(table.address, U, true);
    var w2 := Put(w1, P, true);
    PutFlag(table.address, U, P, true);
    PutFlag(w1, P, P, true);
    PutFlag(w2, W, P, true);
  }

  /** An entry of 0 is not present. */
  lemma AbsentIsZero()
    ensures forall f :: !Has(0, f)
  {
    forall f ensures !Has(0, f) { NothingMeets(FlagBit(f)); }
  }

  // ----- the tables and what they mean -----

  /** The page directory and the page tables of user space, by the physical address of the page
      that each lies in. */
  datatype Tables = Tables(dir: seq<Word>, tables: map<Frame, seq<Word>>)

  /** Every user entry of the directory is 0 or points to a page table of its own. Page tables
      of the kernel, which all directories share, are none of these. */
  ghost predicate Valid(t: Tables) {
    && |t.dir| == ENTRIES
    && (forall i | 0 <= i < USER_TABLES && t.dir[i] != 0 :: Has(t.dir[i], P) && Page(t.dir[i]) in t.tables)
    && (forall i, j | 0 <= i < j < USER_TABLES && t.dir[i] != 0 && t.dir[j] != 0 :: Page(t.dir[i]) != Page(t.dir[j]))
    && (forall p | p in t.tables :: |t.tables[p]| == ENTRIES)
    && (forall i | USER_TABLES <= i < ENTRIES && t.dir[i] != 0 :: Page(t.dir[i]) !in t.tables)
  }

  /** The entry for page n, or 0 where there is no page table. */
  ghost function Entry(t: Tables, n: nat): Word
    requires Valid(t) && n < USER_PAGES
  {
    if t.dir[n / 1024] == 0 then 0 else t.tables[Page(t.dir[n / 1024])][n % 1024]
  }

  ghost predicate HasTable(t: Tables, n: nat)
    requires Valid(t) && n < USER_PAGES
  {
    t.dir[n / 1024] != 0
  }

  datatype Mapping = Mapping(page: Frame, writable: bool, accessed: bool, dirty: bool)

  function MappingOf(w: Word): Mapping { Mapping(Page(w), Has(w, W), Has(w, A), Has(w, D)) }

  /** The user pages that are mapped, and where. */
  ghost function Mappings(t: Tables): map<nat, Mapping>
    requires Valid(t)
  {
    map n: nat | n < USER_PAGES && Has(Entry(t, n), P) :: MappingOf(Entry(t, n))
  }

  /** One entry changed and nothing else did. */
  ghost predicate OnlyEntry(t: Tables, t': Tables, n: nat, w: Word)
    requires Valid(t) && n < USER_PAGES
  {
    && Valid(t') && Entry(t', n) == w && (forall m: nat | m < USER_PAGES && m != n :: Entry(t', m) == Entry(t, m))
    && t'.dir[USER_TABLES..] == t.dir[USER_TABLES..]
  }

  lemma OnlyMapping(t: Tables, t': Tables, n: nat, w: Word)
    requires Valid(t) && n < USER_PAGES && OnlyEntry(t, t', n, w)
    ensures Mappings(t') == if Has(w, P) then Mappings(t)[n := MappingOf(w)] else Mappings(t) - {n}
  {
    hide Valid, Has, MappingOf, Entry;
  }

  /** Storing into the page table of page n. */
  function Stored(t: Tables, n: nat, w: Word): Tables
    requires |t.dir| == ENTRIES && n < USER_PAGES && Page(t.dir[n / 1024]) in t.tables && |t.tables[Page(t.dir[n / 1024])]| == ENTRIES
  {
    var p := Page(t.dir[n / 1024]);
    t.(tables := t.tables[p := t.tables[p][n % 1024 := w]])
  }

  lemma StoredIsOnly(t: Tables, n: nat, w: Word)
    requires Valid(t) && n < USER_PAGES && HasTable(t, n)
    ensures OnlyEntry(t, Stored(t, n, w), n, w)
  {
    hide Has, Page;
    var t' := Stored(t, n, w);
    assert Valid(t');
    forall m: nat | m < USER_PAGES && m != n ensures Entry(t', m) == Entry(t, m) {
      if m / 1024 == n / 1024 {
        assert m % 1024 != n % 1024;
      } else if t.dir[m / 1024] != 0 {
        DifferentTables(t, m / 1024, n / 1024);
      }
    }
  }

  lemma DifferentTables(t: Tables, i: nat, j: nat)
    requires Valid(t) && i != j && i < USER_TABLES && j < USER_TABLES && t.dir[i] != 0 && t.dir[j] != 0
    ensures Page(t.dir[i]) != Page(t.dir[j])
  {
    hide Has, Page;
  }

  /** lookup_page when it creates a page table. */
  function WithTable(t: Tables, i: nat, table: Frame): Tables
    requires |t.dir| == ENTRIES && i < USER_TABLES
  {
    Tables(t.dir[i := PdeCreate(table)], t.tables[table := seq(1024, _ => 0)])
  }

  lemma NewTableMapsNothing(t: Tables, i: nat, table: Frame)
    requires Valid(t) && i < USER_TABLES && t.dir[i] == 0 && Aligned(table) && table !in t.tables
    requires forall j | 0 <= j < ENTRIES && t.dir[j] != 0 :: Page(t.dir[j]) != table
    ensures var t' := WithTable(t, i, table);
            && Valid(t') && t'.dir[USER_TABLES..] == t.dir[USER_TABLES..] && t'.dir[i] != 0
            && forall m: nat | m < USER_PAGES :: Entry(t', m) == Entry(t, m)
  {
    PdeCreated(table);
    hide Has, Page, PdeCreate, Aligned;
    var t' := WithTable(t, i, table);
    assert Valid(t');
    forall m: nat | m < USER_PAGES ensures Entry(t', m) == Entry(t, m) { }
  }

  lemma SameEntries(t: Tables, t': Tables)
    requires Valid(t) && Valid(t') && forall m: nat | m < USER_PAGES :: Entry(t', m) == Entry(t, m)
    ensures Mappings(t') == Mappings(t)
  {
    hide Valid, Has, Entry, MappingOf;
  }

  /** A page from the page allocator is none of the page tables in use. */
  ghost predicate Unused(t: Tables, table: Frame) {
    && Aligned(table) && table !in t.tables
    && forall j | 0 <= j < |t.dir| && t.dir[j] != 0 :: Page(t.dir[j]) != table
  }

  // ----- the operations -----

  class PageDirectory {
    const page: Frame
    var dir: seq<Word>
    var tables: map<Frame, seq<Word>>

    ghost function View(): Tables
      reads this
    {
      Tables(dir, tables)
    }

    /** pagedir_create: a copy of the initial directory, which maps no user page. */
    constructor (page: Frame, initPageDir: seq<Word>)
      requires |initPageDir| == ENTRIES && forall i | 0 <= i < USER_TABLES :: initPageDir[i] == 0
      ensures Valid(View()) && Mappings(View()) == map[] && dir == initPageDir
    {
      this.page, dir, tables := page, initPageDir, map[];
      new;
      AbsentIsZero();
      assert Valid(View());
      hide Has;
      assert forall n: nat | n < USER_PAGES :: Entry(View(), n) == 0;
    }

    /** lookup_page on a user address: whether there is a page table for it, perhaps a new one. */
    method LookupPage(va: nat, create: bool, alloc: Option<Frame>) returns (found: bool)
      requires Valid(View()) && va < PHYS_BASE && (alloc.Some? ==> Unused(View(), alloc.value))
      modifies this`dir, this`tables
      ensures Valid(View()) && found == HasTable(View(), PageNo(va))
      ensures forall m: nat | m < USER_PAGES :: Entry(View(), m) == old(Entry(View(), m))
      ensures dir[USER_TABLES..] == old(dir)[USER_TABLES..]
      ensures !found ==> View() == old(View()) && (!create || alloc.None?)
      ensures !create ==> View() == old(View())
      ensures found ==> old(HasTable(View(), PageNo(va))) || (create && alloc.Some?)
      ensures found ==> if old(HasTable(View(), PageNo(va))) then View() == old(View()) else View() == WithTable(old(View()), PdNo(va), alloc.value)
    {
      hide Has, Page, PdeCreate, Aligned;
      AddressParts(va);
      if dir[PdNo(va)] == 0 {
        if !create || alloc.None? { return false; }
        NewTableMapsNothing(View(), PdNo(va), alloc.value);
        tables := tables[alloc.value := seq(1024, _ => 0)];
        dir := dir[PdNo(va) := PdeCreate(alloc.value)];
      }
      return true;
    }

    /** The entry that lookup_page points to. */
    method Load(va: nat) returns (w: Word)
      requires Valid(View()) && va < PHYS_BASE && HasTable(View(), PageNo(va))
      ensures w == Entry(View(), PageNo(va))
    {
      AddressParts(va);
      w := tables[Page(dir[PdNo(va)])][PtNo(va)];
    }

    method Store(va: nat, w: Word)
      requires Valid(View()) && va < PHYS_BASE && HasTable(View(), PageNo(va))
      modifies this`tables
      ensures OnlyEntry(old(View()), View(), PageNo(va), w)
    {
      AddressParts(va);
      StoredIsOnly(View(), PageNo(va), w);
      hide Valid, Has;
      StoreFits(View(), PageNo(va));
      var p := Page(dir[PdNo(va)]);
      tables := tables[p := tables[p][PtNo(va) := w]];
    }

    /** pagedir_set_page; it fails exactly when a page table is needed and there is no memory. */
    method SetPage(upage: nat, kpage: Frame, writable: bool, alloc: Option<Frame>) returns (ok: bool)
      requires Valid(View()) && upage < PHYS_BASE && PgOfs(upage) == 0 && Aligned(kpage)
      requires PageNo(upage) !in Mappings(View()) && (alloc.Some? ==> Unused(View(), alloc.value))
      modifies this`dir, this`tables
      ensures Valid(View()) && dir[USER_TABLES..] == old(dir)[USER_TABLES..]
      ensures ok ==> Mappings(View()) == old(Mappings(View()))[PageNo(upage) := Mapping(kpage, writable, false, false)]
      ensures !ok ==> View() == old(View())
      ensures ok <==> alloc.Some? || old(HasTable(View(), PageNo(upage)))
      ensures ok ==> (OneOwnerEach(View(), page) <==> old(OneOwnerEach(View(), page)) && old(NewFrames(View(), page, PageNo(upage), kpage, alloc)))
    {
      AddressParts(upage);
      hide OneOwnerEach, NewFrames, WithTable, Valid, Has, Entry, Aligned, PteCreateUser, Mappings, OnlyEntry, Unused, HasTable;
      ghost var t := View();
      ok := LookupPage(upage, true, alloc);
      ghost var t1 := View();
      SameEntries(t, t1);
      TableStays(t, t1, PageNo(upage), ok, alloc);
      if ok {
        Store(upage, PteCreateUser(kpage, writable));
        OnlyIsValid(t1, View(), PageNo(upage), PteCreateUser(kpage, writable));
        OnlyMapping(t1, View(), PageNo(upage), PteCreateUser(kpage, writable));
        NewMapping(kpage, writable);
        if alloc.Some? { UnusedIsAligned(t, alloc.value); }
        FramesAreNew(t, t1, View(), page, PageNo(upage), kpage, writable, alloc);
      }
    }

    /** pagedir_get_page: the frame and the offset in it, for every address of a mapped page. */
    method GetPage(uaddr: nat) returns (r: Option<(Frame, nat)>)
      requires Valid(View()) && uaddr < PHYS_BASE
      ensures r == if PageNo(uaddr) in Mappings(View()) then Some((Mappings(View())[PageNo(uaddr)].page, PgOfs(uaddr))) else None
    {
      AddressParts(uaddr);
      AbsentIsZero();
      hide Has;
      if dir[PdNo(uaddr)] == 0 { return None; }
      var pte := Load(uaddr);
      return if Has(pte, P) then Some((Page(pte), PgOfs(uaddr))) else None;
    }

    /** Changing one flag of the entry for a page, if there is a page table for it. */
    method ChangeFlag(va: nat, f: Flag, v: bool)
      requires Valid(View()) && va < PHYS_BASE && f != P
      modifies this`tables
      ensures Valid(View()) && dir == old(dir)
      ensures Mappings(View()) == WithFlag(old(Mappings(View())), PageNo(va), f, v)
    {
      AddressParts(va);
      ghost var t, n := View(), PageNo(va);
      if dir[PdNo(va)] == 0 {
        NotMapped(t, n);
        return;
      }
      var pte := Load(va);
      hide Valid, Entry, OnlyEntry, Has, Mappings;
      Store(va, Put(pte, f, v));
      OnlyIsValid(t, View(), n, Put(pte, f, v));
      OnlyMapping(t, View(), n, Put(pte, f, v));
      FlagMapping(t, n, pte, f, v);
    }

    /** pagedir_clear_page */
    method ClearPage(upage: nat)
      requires Valid(View()) && upage < PHYS_BASE && PgOfs(upage) == 0
      modifies this`tables
      ensures Valid(View()) && dir == old(dir) && Mappings(View()) == old(Mappings(View())) - {PageNo(upage)}
    {
      AddressParts(upage);
      ghost var t, n := View(), PageNo(upage);
      if dir[PdNo(upage)] == 0 {
        NotMapped(t, n);
        return;
      }
      var pte := Load(upage);
      if Has(pte, P) {
        hide Valid, Entry, OnlyEntry, Has, Mappings;
        Store(upage, Put(pte, P, false));
        OnlyIsValid(t, View(), n, Put(pte, P, false));
        OnlyMapping(t, View(), n, Put(pte, P, false));
        PutFlag(pte, P, P, false);
      } else {
        NotMapped(t, n);
      }
    }

    /** pagedir_is_dirty */
    method IsDirty(vpage: nat) returns (b: bool)
      requires Valid(View()) && vpage < PHYS_BASE
      ensures b == Has(Entry(View(), PageNo(vpage)), D)
      ensures PageNo(vpage) in Mappings(View()) ==> b == Mappings(View())[PageNo(vpage)].dirty
    {
      AddressParts(vpage);
      AbsentIsZero();
      hide Has;
      if dir[PdNo(vpage)] == 0 { return false; }
      var pte := Load(vpage);
      b := Has(pte, D);
    }

    /** pagedir_is_accessed */
    method IsAccessed(vpage: nat) returns (b: bool)
      requires Valid(View()) && vpage < PHYS_BASE
      ensures b == Has(Entry(View(), PageNo(vpage)), A)
      ensures PageNo(vpage) in Mappings(View()) ==> b == Mappings(View())[PageNo(vpage)].accessed
    {
      AddressParts(vpage);
      AbsentIsZero();
      hide Has;
      if dir[PdNo(vpage)] == 0 { return false; }
      var pte := Load(vpage);
      b := Has(pte, A);
    }

    /** pagedir_set_dirty */
    method SetDirty(vpage: nat, dirty: bool)
      requires Valid(View()) && vpage < PHYS_BASE
      modifies this`tables
      ensures Valid(View()) && dir == old(dir) && Mappings(View()) == WithFlag(old(Mappings(View())), PageNo(vpage), D, dirty)
    {
      ChangeFlag(vpage, D, dirty);
    }

    /** pagedir_set_accessed */
    method SetAccessed(vpage: nat, accessed: bool)
      requires Valid(View()) && vpage < PHYS_BASE
      modifies this`tables
      ensures Valid(View()) && dir == old(dir) && Mappings(View()) == WithFlag(old(Mappings(View())), PageNo(vpage), A, accessed)
    {
      ChangeFlag(vpage, A, accessed);
    }

    /** pagedir_destroy: the pages that it frees, in order, and what each of them is. */
    method Destroy() returns (freed: seq<Frame>, ghost owners: seq<Owner>)
      requires Valid(View())
      ensures |freed| == |owners| && forall k | 0 <= k < |freed| :: Owned(View(), page, owners[k]) && freed[k] == FrameOwned(View(), page, owners[k])
      ensures NoRepeats(owners) && forall o :: o in owners <==> Owned(View(), page, o)
      ensures forall f :: f in freed <==> exists o :: Owned(View(), page, o) && FrameOwned(View(), page, o) == f
      ensures OneOwnerEach(View(), page) <==> forall x, y | 0 <= x < y < |freed| :: freed[x] != freed[y]
    {
      ghost var t := View();
      hide Has, Page, Valid, Entry;
      DirLength(t);
      freed, owners := [], [];
      for i := 0 to USER_TABLES
        invariant View() == t && |freed| == |owners| && NoRepeats(owners)
        invariant forall k | 0 <= k < |freed| :: Owned(t, page, owners[k]) && freed[k] == FrameOwned(t, page, owners[k])
        invariant forall o :: o in owners <==> Owned(t, page, o) && Before(o, i)
      {
        if dir[i] != 0 {
          freed, owners := FreeTable(i, freed, owners);
        } else {
          NothingAt(t, page, i);
        }
      }
      AllBefore(t, page);
      AppendOwner(owners, Directory);
      freed, owners := freed + [page], owners + [Directory];
      FreedIs(t, page, freed, owners);
      FreedOnce(t, page, freed, owners);
    }

    /** The pages of one page table, and the page table itself. */
    method FreeTable(i: nat, freed0: seq<Frame>, ghost owners0: seq<Owner>) returns (freed: seq<Frame>, ghost owners: seq<Owner>)
      requires Valid(View()) && i < USER_TABLES && dir[i] != 0 && |freed0| == |owners0| && NoRepeats(owners0)
      requires forall k | 0 <= k < |freed0| :: Owned(View(), page, owners0[k]) && freed0[k] == FrameOwned(View(), page, owners0[k])
      requires forall o :: o in owners0 <==> Owned(View(), page, o) && Before(o, i)
      ensures |freed| == |owners| && NoRepeats(owners)
      ensures forall k | 0 <= k < |freed| :: Owned(View(), page, owners[k]) && freed[k] == FrameOwned(View(), page, owners[k])
      ensures forall o :: o in owners <==> Owned(View(), page, o) && Before(o, i + 1)
    {
      ghost var t := View();
      freed, owners := freed0, owners0;
      TableLength(t, i);
      hide Has, Valid;
      var table := Page(dir[i]);
      for j := 0 to ENTRIES
        invariant |freed| == |owners| && NoRepeats(owners)
        invariant forall k | 0 <= k < |freed| :: Owned(t, page, owners[k]) && freed[k] == FrameOwned(t, page, owners[k])
        invariant forall o :: o in owners <==> Owned(t, page, o) && BeforeIn(o, i, j)
      {
        EntryAt(t, i, j);
        if Has(tables[table][j], P) {
          AppendOwner(owners, UserPage(1024 * i + j));
          freed, owners := freed + [Page(tables[table][j])], owners + [UserPage(1024 * i + j)];
        }
      }
      AppendOwner(owners, PageTable(i));
      freed, owners := freed + [table], owners + [PageTable(i)];
    }
  }

  lemma UnusedIsAligned(t: Tables, table: Frame)
    requires Unused(t, table)
    ensures Aligned(table)
  {
  }

  lemma StoreFits(t: Tables, n: nat)
    requires Valid(t) && n < USER_PAGES && HasTable(t, n)
    ensures |t.dir| == ENTRIES && Page(t.dir[n / 1024]) in t.tables && |t.tables[Page(t.dir[n / 1024])]| == ENTRIES
  {
  }

  lemma TableStays(t: Tables, t1: Tables, n: nat, ok: bool, alloc: Option<Frame>)
    requires Valid(t) && Valid(t1) && n < USER_PAGES && ok == HasTable(t1, n) && (!ok ==> t1 == t && alloc.None?)
    requires forall m: nat | m < USER_PAGES :: Entry(t1, m) == Entry(t, m)
    ensures !ok ==> alloc.None? && !HasTable(t, n)
  {
  }

  lemma OnlyIsValid(t: Tables, t': Tables, n: nat, w: Word)
    requires Valid(t) && n < USER_PAGES && OnlyEntry(t, t', n, w)
    ensures Valid(t') && t'.dir[USER_TABLES..] == t.dir[USER_TABLES..]
  {
  }

  lemma NewMapping(kpage: Frame, writable: bool)
    requires Aligned(kpage)
    ensures Has(PteCreateUser(kpage, writable), P) && MappingOf(PteCreateUser(kpage, writable)) == Mapping(kpage, writable, false, false)
  {
    hide Has, PteCreateUser;
    PteCreated(kpage, writable, P);
    PteCreated(kpage, writable, W);
    PteCreated(kpage, writable, A);
    PteCreated(kpage, writable, D);
  }

  lemma NotMapped(t: Tables, n: nat)
    requires Valid(t) && n < USER_PAGES && (t.dir[n / 1024] == 0 || !Has(Entry(t, n), P))
    ensures n !in Mappings(t) && Mappings(t) - {n} == Mappings(t)
  {
    AbsentIsZero();
  }

  function WithFlag(m: map<nat, Mapping>, n: nat, f: Flag, v: bool): map<nat, Mapping> {
    if n !in m then m else m[n := match f
      case P => m[n]
      case U => m[n]
      case W => m[n].(writable := v)
      case A => m[n].(accessed := v)
      case D => m[n].(dirty := v)]
  }

  lemma FlagMapping(t: Tables, n: nat, w: Word, f: Flag, v: bool)
    requires Valid(t) && n < USER_PAGES && w == Entry(t, n) && f != P
    ensures (if Has(Put(w, f, v), P) then Mappings(t)[n := MappingOf(Put(w, f, v))] else Mappings(t) - {n}) == WithFlag(Mappings(t), n, f, v)
  {
    hide Has, Put, Valid;
    PutFlag(w, f, P, v);
    PutFlag(w, f, W, v);
    PutFlag(w, f, A, v);
    PutFlag(w, f, D, v);
  }

  // ----- what pagedir_destroy frees -----

  /** What a page of memory serves as. */
  datatype Owner = UserPage(n: nat) | PageTable(i: nat) | Directory

  ghost predicate Owned(t: Tables, page: Frame, o: Owner)
    requires Valid(t)
  {
    match o
    case UserPage(n) => n < USER_PAGES && Has(Entry(t, n), P)
    case PageTable(i) => i < USER_TABLES && t.dir[i] != 0
    case Directory => true
  }

  ghost function FrameOwned(t: Tables, page: Frame, o: Owner): Frame
    requires Valid(t) && Owned(t, page, o)
  {
    match o case UserPage(n) => Page(Entry(t, n)) case PageTable(i) => Page(t.dir[i]) case Directory => page
  }

  ghost predicate NoRepeats(q: seq<Owner>) { forall x, y | 0 <= x < y < |q| :: q[x] != q[y] }

  /** The owner belongs to a page table before number i. */
  predicate Before(o: Owner, i: nat) {
    match o case UserPage(n) => n / 1024 < i case PageTable(k) => k < i case Directory => false
  }

  predicate BeforeIn(o: Owner, i: nat, j: nat) {
    match o case UserPage(n) => n < 1024 * i + j case PageTable(k) => k < i case Directory => false
  }

  lemma AppendOwner(q: seq<Owner>, o: Owner)
    requires NoRepeats(q) && o !in q
    ensures NoRepeats(q + [o]) && forall x :: x in q + [o] <==> x in q || x == o
  {
  }

  lemma NothingAt(t: Tables, page: Frame, i: nat)
    requires Valid(t) && i < USER_TABLES && t.dir[i] == 0
    ensures forall o :: Owned(t, page, o) ==> (Before(o, i + 1) <==> Before(o, i))
  {
    AbsentIsZero();
    hide Has;
  }

  lemma AllBefore(t: Tables, page: Frame)
    requires Valid(t)
    ensures forall o :: Owned(t, page, o) ==> (Before(o, USER_TABLES) <==> o != Directory)
  {
    hide Has, Entry, Valid;
  }

  lemma EntryAt(t: Tables, i: nat, j: nat)
    requires Valid(t) && i < USER_TABLES && j < ENTRIES && t.dir[i] != 0
    ensures Page(t.dir[i]) in t.tables && |t.tables[Page(t.dir[i])]| == ENTRIES
    ensures 1024 * i + j < USER_PAGES && Entry(t, 1024 * i + j) == t.tables[Page(t.dir[i])][j]
  {
    assert (1024 * i + j) / 1024 == i && (1024 * i + j) % 1024 == j;
  }

  lemma TableLength(t: Tables, i: nat)
    requires Valid(t) && i < USER_TABLES && t.dir[i] != 0
    ensures Page(t.dir[i]) in t.tables && |t.tables[Page(t.dir[i])]| == ENTRIES && |t.dir| == ENTRIES
  {
  }

  lemma DirLength(t: Tables)
    requires Valid(t)
    ensures |t.dir| == ENTRIES
  {
  }

  /** Every user page is mapped once, and no page serves two purposes. */
  ghost predicate OneOwnerEach(t: Tables, page: Frame)
    requires Valid(t)
  {
    forall o1, o2 | Owned(t, page, o1) && Owned(t, page, o2) && FrameOwned(t, page, o1) == FrameOwned(t, page, o2) :: o1 == o2
  }

  lemma FreedIs(t: Tables, page: Frame, freed: seq<Frame>, owners: seq<Owner>)
    requires Valid(t) && |freed| == |owners| && forall o :: o in owners <==> Owned(t, page, o)
    requires forall k | 0 <= k < |freed| :: Owned(t, page, owners[k]) && freed[k] == FrameOwned(t, page, owners[k])
    ensures forall f :: f in freed <==> exists o :: Owned(t, page, o) && FrameOwned(t, page, o) == f
  {
    hide Valid, Owned, FrameOwned;
    forall f ensures f in freed <==> exists o :: Owned(t, page, o) && FrameOwned(t, page, o) == f {
      if f in freed {
        var k :| 0 <= k < |freed| && freed[k] == f;
        assert Owned(t, page, owners[k]) && FrameOwned(t, page, owners[k]) == f;
      }
      if o :| Owned(t, page, o) && FrameOwned(t, page, o) == f {
        var k :| 0 <= k < |owners| && owners[k] == o;
        assert freed[k] == f;
      }
    }
  }

  /** No page is freed twice exactly if every page has one owner. */
  lemma FreedOnce(t: Tables, page: Frame, freed: seq<Frame>, owners: seq<Owner>)
    requires Valid(t) && |freed| == |owners| && NoRepeats(owners) && forall o :: o in owners <==> Owned(t, page, o)
    requires forall k | 0 <= k < |freed| :: Owned(t, page, owners[k]) && freed[k] == FrameOwned(t, page, owners[k])
    ensures OneOwnerEach(t, page) <==> forall x, y | 0 <= x < y < |freed| :: freed[x] != freed[y]
  {
    hide Valid, Owned, FrameOwned;
    if OneOwnerEach(t, page) {
      forall x, y | 0 <= x < y < |freed| ensures freed[x] != freed[y] { assert owners[x] != owners[y]; }
    }
    if forall x, y | 0 <= x < y < |freed| :: freed[x] != freed[y] {
      forall o1, o2 | Owned(t, page, o1) && Owned(t, page, o2) && FrameOwned(t, page, o1) == FrameOwned(t, page, o2) ensures o1 == o2 {
        var x :| 0 <= x < |owners| && owners[x] == o1;
        var y :| 0 <= y < |owners| && owners[y] == o2;
        assert freed[x] == freed[y];
      }
    }
  }

  ghost predicate NotOwned(t: Tables, page: Frame, f: Frame)
    requires Valid(t)
  {
    forall o | Owned(t, page, o) :: FrameOwned(t, page, o) != f
  }

  /** The frame to be mapped, and the one for a page table if that is needed, have no owner. */
  ghost predicate NewFrames(t: Tables, page: Frame, n: nat, kpage: Frame, alloc: Option<Frame>)
    requires Valid(t) && n < USER_PAGES
  {
    NotOwned(t, page, kpage) && (alloc.Some? && !HasTable(t, n) ==> NotOwned(t, page, alloc.value) && alloc.value != kpage)
  }

  /** One more owner, of frame f, and the others as before. */
  ghost predicate OneMoreOwner(t: Tables, t': Tables, page: Frame, o1: Owner, f: Frame) {
    && Valid(t) && Valid(t') && !Owned(t, page, o1) && Owned(t', page, o1) && FrameOwned(t', page, o1) == f
    && (forall o :: Owned(t', page, o) <==> Owned(t, page, o) || o == o1)
    && forall o | Owned(t, page, o) :: FrameOwned(t', page, o) == FrameOwned(t, page, o)
  }

  lemma OwnerAdded(t: Tables, t': Tables, page: Frame, o1: Owner, f: Frame)
    requires OneMoreOwner(t, t', page, o1, f)
    ensures OneOwnerEach(t', page) <==> OneOwnerEach(t, page) && NotOwned(t, page, f)
    ensures forall g :: NotOwned(t', page, g) <==> NotOwned(t, page, g) && g != f
  {
    hide Valid, Owned, FrameOwned;
    if OneOwnerEach(t', page) {
      forall o | Owned(t, page, o) ensures FrameOwned(t, page, o) != f { assert o != o1; }
    }
  }

  lemma TableOwner(t: Tables, page: Frame, i: nat, table: Frame)
    requires Valid(t) && i < USER_TABLES && t.dir[i] == 0 && Aligned(table) && Valid(WithTable(t, i, table))
    requires forall m: nat | m < USER_PAGES :: Entry(WithTable(t, i, table), m) == Entry(t, m)
    ensures OneMoreOwner(t, WithTable(t, i, table), page, PageTable(i), table)
  {
    PdeCreated(table);
    hide Has, Page, PdeCreate, Aligned, Entry;
  }

  lemma EntryOwner(t: Tables, t': Tables, page: Frame, n: nat, w: Word)
    requires Valid(t) && n < USER_PAGES && OnlyEntry(t, t', n, w) && t'.dir == t.dir && !Has(Entry(t, n), P) && Has(w, P)
    ensures OneMoreOwner(t, t', page, UserPage(n), Page(w))
  {
    hide Has, Page, Entry;
  }

  lemma FramesAreNew(t: Tables, t1: Tables, t2: Tables, page: Frame, n: nat, kpage: Frame, writable: bool, alloc: Option<Frame>)
    requires Valid(t) && n < USER_PAGES && n !in Mappings(t) && (HasTable(t, n) || (alloc.Some? && Aligned(alloc.value))) && Aligned(kpage)
    requires t1 == if HasTable(t, n) then t else WithTable(t, n / 1024, alloc.value)
    requires Valid(t1) && forall m: nat | m < USER_PAGES :: Entry(t1, m) == Entry(t, m)
    requires OnlyEntry(t1, t2, n, PteCreateUser(kpage, writable)) && t2.dir == t1.dir
    ensures OneOwnerEach(t2, page) <==> OneOwnerEach(t, page) && NewFrames(t, page, n, kpage, alloc)
  {
    hide Valid, Has, Entry, Page, PteCreateUser, OnlyEntry, OneOwnerEach, NotOwned, OneMoreOwner, WithTable;
    var w := PteCreateUser(kpage, writable);
    PteCreated(kpage, writable, P);
    DirLength(t);
    if !HasTable(t, n) {
      TableOwner(t, page, n / 1024, alloc.value);
      OwnerAdded(t, t1, page, PageTable(n / 1024), alloc.value);
    }
    EntryOwner(t1, t2, page, n, w);
    OwnerAdded(t1, t2, page, UserPage(n), kpage);
  }

  /** The frame does not hold one of the page tables of the kernel. */
  predicate NoKernelTable(dir: seq<Word>, f: Frame) {
    forall i | USER_TABLES <= i < ENTRIES && i < |dir| && dir[i] != 0 :: Page(dir[i]) != f
  }

  /** Neither the directory nor a mapped page lies in a page table of the kernel. */
  ghost predicate SparesKernel(t: Tables, page: Frame) {
    Valid(t) && NoKernelTable(t.dir, page) && forall n: nat | n < USER_PAGES && Has(Entry(t, n), P) :: NoKernelTable(t.dir, Page(Entry(t, n)))
  }

  /** Whatever pagedir_destroy frees, it is no page table of the kernel. */
  lemma KernelTablesStay(t: Tables, page: Frame, o: Owner)
    requires SparesKernel(t, page) && Owned(t, page, o)
    ensures NoKernelTable(t.dir, FrameOwned(t, page, o))
  {
    hide Entry;
    if o.PageTable? { assert Page(t.dir[o.i]) in t.tables; }
  }

  /** Changing one entry keeps this so, unless the entry maps a page table of the kernel. */
  lemma EntrySparesKernel(t: Tables, t': Tables, page: Frame, n: nat, w: Word)
    requires SparesKernel(t, page) && n < USER_PAGES && OnlyEntry(t, t', n, w)
    ensures SparesKernel(t', page) <==> !Has(w, P) || NoKernelTable(t.dir, Page(w))
  {
    hide Entry, Has, Page;
    forall f ensures NoKernelTable(t'.dir, f) <==> NoKernelTable(t.dir, f) { SameKernelTables(t.dir, t'.dir, f); }
  }

  lemma SameKernelTables(dir: seq<Word>, dir': seq<Word>, f: Frame)
    requires |dir| == |dir'| == ENTRIES && dir'[USER_TABLES..] == dir[USER_TABLES..]
    ensures NoKernelTable(dir', f) <==> NoKernelTable(dir, f)
  {
    forall i | USER_TABLES <= i < ENTRIES ensures dir'[i] == dir[i] {
      assert dir'[i] == dir'[USER_TABLES..][i - USER_TABLES] && dir[i] == dir[USER_TABLES..][i - USER_TABLES];
    }
  }
}
