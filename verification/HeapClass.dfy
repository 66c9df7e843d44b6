/** malloc, calloc, realloc and free, with the page allocator below them and the bytes of the
    pool above. A block in use keeps its bytes until it is freed. */
module HeapClass {
  import opened Machine
  import opened Bitmaps
  import opened Heap
  import opened HeapLemmas

  type Bytes = seq<byte>

  // ----- memory -----

  /** memset */
  function Fill(mem: Bytes, a: int, n: int, v: byte): (r: Bytes)
    ensures |r| == |mem|
    ensures forall i | 0 <= i < |mem| :: r[i] == if a <= i < a + n then v else mem[i]
  {
    seq(|mem|, i requires 0 <= i < |mem| => if a <= i < a + n then v else mem[i])
  }

  /** memcpy; bytes outside the pool are not modelled and read as zero. */
  function Copy(mem: Bytes, dst: int, src: int, n: int): (r: Bytes)
    ensures |r| == |mem|
    ensures forall i | 0 <= i < |mem| && dst <= i < dst + n && 0 <= src + (i - dst) < |mem| :: r[i] == mem[src + (i - dst)]
    ensures forall i | 0 <= i < |mem| && !(dst <= i < dst + n) :: r[i] == mem[i]
  {
    seq<byte>(|mem|, i requires 0 <= i < |mem| =>
      if dst <= i < dst + n then (if 0 <= src + (i - dst) < |mem| then mem[src + (i - dst)] else 0) else mem[i])
  }

  /** The block has the same place, size and bytes. */
  ghost predicate SameBlock(h: Heap, mem: Bytes, h': Heap, mem': Bytes, b: Block) {
    && InArena(h, b) && InArena(h', b)
    && Address(h'.arenas[b.page], b) == Address(h.arenas[b.page], b) && Usable(h'.arenas[b.page]) == Usable(h.arenas[b.page])
    && |mem'| == |mem| && forall i | Address(h.arenas[b.page], b) <= i < End(h, b) && i < |mem| :: mem'[i] == mem[i]
  }

  ghost predicate Untouched(h: Heap, mem: Bytes, h': Heap, mem': Bytes, keep: set<Block>) {
    forall b | b in keep :: SameBlock(h, mem, h', mem', b)
  }

  lemma SameBlockTrans(h: Heap, mem: Bytes, h1: Heap, mem1: Bytes, h2: Heap, mem2: Bytes, b: Block)
    requires SameBlock(h, mem, h1, mem1, b) && SameBlock(h1, mem1, h2, mem2, b)
    ensures SameBlock(h, mem, h2, mem2, b)
  {
  }

  lemma UntouchedTrans(h: Heap, mem: Bytes, h1: Heap, mem1: Bytes, h2: Heap, mem2: Bytes, keep: set<Block>)
    requires Untouched(h, mem, h1, mem1, keep) && Untouched(h1, mem1, h2, mem2, keep)
    ensures Untouched(h, mem, h2, mem2, keep)
  {
    hide SameBlock;
    forall b | b in keep ensures SameBlock(h, mem, h2, mem2, b) { SameBlockTrans(h, mem, h1, mem1, h2, mem2, b); }
  }

  lemma UntouchedFewer(h: Heap, mem: Bytes, h': Heap, mem': Bytes, keep: set<Block>, fewer: set<Block>)
    requires Untouched(h, mem, h', mem', keep) && fewer <= keep
    ensures Untouched(h, mem, h', mem', fewer)
  {
    hide SameBlock;
  }

  /** The block's arena is where it was and divided as it was. */
  ghost predicate SamePlace(h: Heap, h': Heap, b: Block) {
    && InArena(h, b) && b.page in h'.arenas && h'.arenas[b.page].desc == h.arenas[b.page].desc
    && (h.arenas[b.page].desc.None? ==> h'.arenas[b.page] == h.arenas[b.page])
  }

  lemma PlacesUntouched(h: Heap, h': Heap, mem: Bytes, keep: set<Block>)
    requires forall b | b in keep :: SamePlace(h, h', b)
    ensures Untouched(h, mem, h', mem, keep)
  {
    forall b | b in keep ensures SameBlock(h, mem, h', mem, b) { assert SamePlace(h, h', b); }
  }

  /** Writing to one block does not touch another. */
  lemma WriteUntouched(h: Heap, mem: Bytes, mem': Bytes, b: Block, n: int, keep: set<Block>)
    requires Core(h) && InArena(h, b) && n <= Usable(h.arenas[b.page]) && |mem'| == |mem|
    requires forall c | c in keep :: InArena(h, c) && c != b
    requires forall i | 0 <= i < |mem| && !(Address(h.arenas[b.page], b) <= i < Address(h.arenas[b.page], b) + n) :: mem'[i] == mem[i]
    ensures Untouched(h, mem, h, mem', keep)
  {
    forall c | c in keep ensures SameBlock(h, mem, h, mem', c) {
      BlocksAreDisjoint(h, b, c);
      hide Core;
    }
  }

  /** Writing inside a run of pages that holds no kept block touches none. */
  lemma PagesUntouched(h: Heap, mem: Bytes, mem': Bytes, p: nat, keep: set<Block>)
    requires Core(h) && p in h.arenas && |mem'| == |mem| && forall c | c in keep :: InArena(h, c) && c.page != p
    requires forall i | 0 <= i < |mem| && !(4096 * p <= i < 4096 * (p + Pages(h.arenas[p]))) :: mem'[i] == mem[i]
    ensures Untouched(h, mem, h, mem', keep)
  {
    forall c | c in keep ensures SameBlock(h, mem, h, mem', c) {
      assert RunOk(h.used, c.page, h.arenas[c.page]);
      assert Apart(p, h.arenas[p], c.page, h.arenas[c.page]);
      BlockInRun(h, c);
      hide Core;
    }
  }

  // ----- what malloc and free do to the bookkeeping -----

  /** The smallest descriptor whose blocks hold size bytes. */
  function DescFor(size: nat): (k: Option<nat>)
    ensures k.None? <==> size > 1024
    ensures k.Some? ==> k.value < DESC_CNT && BlockSize(k.value) >= size && forall j: nat | j < k.value :: BlockSize(j) < size
  {
    if size <= 16 then Some(0) else if size <= 32 then Some(1) else if size <= 64 then Some(2) else if size <= 128 then Some(3)
    else if size <= 256 then Some(4) else if size <= 512 then Some(5) else if size <= 1024 then Some(6) else None
  }

  /** No memory for a request: nothing on the free list and no page for a new arena, or no run
      of pages for a big block. */
  ghost predicate Exhausted(h: Heap, size: nat) {
    size == 0 || match DescFor(size)
      case Some(k) => |h.free| == DESC_CNT && h.free[k] == [] && forall p: nat :: !AllFree(h.used, p, 1)
      case None => BigPages(size) == 0 || forall p: nat :: !AllFree(h.used, p, BigPages(size))
  }

  /** A block from the free list, else the first block of a new arena on the first free page,
      else a big block on the first free run of pages. */
  ghost predicate Allocated(h: Heap, size: nat, h': Heap, b: Block) {
    |h.free| == DESC_CNT && size > 0 && match DescFor(size)
      case Some(k) =>
        if h.free[k] != [] then CanTake(h, k) && b == h.free[k][0] && h' == Take(h, k, size) else
          var g := AddArena(h, k, b.page);
          FirstFree(h.used, b.page, 1) && CanTake(g, k) && b == g.free[k][0] == Block(b.page, 0) && h' == Take(g, k, size)
      case None =>
        b.idx == 0 && BigPages(size) > 0 && FirstFree(h.used, b.page, BigPages(size)) && h' == AddBig(h, b.page, BigPages(size), size)
  }

  /** The block goes to the head of its free list; an arena left without blocks in use goes
      back to the page allocator, and so does a big block. */
  ghost predicate Freed(h: Heap, b: Block, h': Heap) {
    InArena(h, b) && |h.free| == DESC_CNT &&
    if h.arenas[b.page].desc.None? then h' == DropBig(h, b)
    else if Idle(Give(h, b), b.page) then Dropped(Give(h, b), h', b.page) else h' == Give(h, b)
  }

  /** Freeing the block that malloc has just returned restores the pages, the arenas and the
      free lists, order included. */
  lemma FreeUndoesMalloc(h: Heap, size: nat, h1: Heap, b: Block, h2: Heap)
    requires Ok(h) && b !in h.live && Allocated(h, size, h1, b) && Freed(h1, b, h2)
    ensures h2 == h
  {
    match DescFor(size)
    case None => UndoBig(h, size, h1, b, h2);
    case Some(k) => if h.free[k] != [] { UndoTake(h, k, size, b, h2); } else { UndoAdd(h, k, size, b, h2); }
  }

  lemma GiveAfterTake(h: Heap, k: nat, size: nat)
    requires CanTake(h, k) && h.free[k][0] !in h.live
    ensures CanGive(Take(h, k, size), h.free[k][0]) && Give(Take(h, k, size), h.free[k][0]) == h
  {
    var b, h1 := h.free[k][0], Take(h, k, size);
    hide BlocksPerArena;
    assert h1.arenas[b.page].desc == Some(k);
    TakeBack(h.free, k);
    assert h1.live - {b} == h.live;
    assert h1.arenas[b.page := h.arenas[b.page]] == h.arenas;
  }

  lemma TakeBack(free: seq<seq<Block>>, k: nat)
    requires k < |free| && free[k] != []
    ensures var rest := free[k := free[k][1..]]; rest[k := [free[k][0]] + rest[k]] == free
  {
    assert free[k] == [free[k][0]] + free[k][1..];
  }

  lemma UndoTake(h: Heap, k: nat, size: nat, b: Block, h2: Heap)
    requires Ok(h) && CanTake(h, k) && b == h.free[k][0] && b !in h.live && Freed(Take(h, k, size), b, h2)
    ensures h2 == h
  {
    hide Core, BlocksPerArena, Take, Give, InArena;
    GiveAfterTake(h, k, size);
    TakeKeepsDesc(h, k, size);
    assert OnList(h, k, b);
  }

  lemma TakeKeepsDesc(h: Heap, k: nat, size: nat)
    requires CanTake(h, k)
    ensures var p := h.free[k][0].page; p in Take(h, k, size).arenas && Take(h, k, size).arenas[p].desc == Some(k)
  {
  }

  lemma UndoAdd(h: Heap, k: nat, size: nat, b: Block, h2: Heap)
    requires Ok(h) && |h.free| == DESC_CNT && k < DESC_CNT && h.free[k] == [] && AllFree(h.used, b.page, 1) && b !in h.live
    requires CanTake(AddArena(h, k, b.page), k) && b == AddArena(h, k, b.page).free[k][0]
    requires Freed(Take(AddArena(h, k, b.page), k, size), b, h2)
    ensures h2 == h
  {
    FreeRunIsApart(h, b.page, 1) by { assert Core(h); }
    hide Core, Take, Give, NewBlocks, AddArena, Dropped, Idle, Ok;
    var p, g := b.page, AddArena(h, k, b.page);
    assert g.live == h.live by { AddedIs(h, k, p); }
    GiveAfterTake(g, k, size);
    TakeKeepsDesc(g, k, size);
    AddedIs(h, k, p);
    DropAdded(h, k, p, h2);
  }

  lemma AddedIs(h: Heap, k: nat, p: nat)
    requires k < DESC_CNT && |h.free| == DESC_CNT
    ensures var g := AddArena(h, k, p); g.live == h.live && Idle(g, p)
  {
    hide BlocksPerArena, NewBlocks;
  }

  lemma EmptyList(list: seq<Block>)
    ensures list == [] || exists b :: b in list
  {
    if list != [] { assert list[0] in list; }
  }

  lemma DropAdded(h: Heap, k: nat, p: nat, h2: Heap)
    requires |h.free| == DESC_CNT && k < DESC_CNT && h.free[k] == [] && AllFree(h.used, p, 1) && p !in h.arenas
    requires Idle(AddArena(h, k, p), p) && Dropped(AddArena(h, k, p), h2, p)
    ensures h2 == h
  {
    var g, n := AddArena(h, k, p), BlocksPerArena(k);
    NewBlocksContents(p, n);
    hide BlocksPerArena, NewBlocks;
    assert g.free[k] == NewBlocks(p, n);
    EmptyList(h2.free[k]);
    assert h2.free == h.free;
    assert h2.used == h.used;
    assert h2.arenas == h.arenas;
  }

  lemma UndoBig(h: Heap, size: nat, h1: Heap, b: Block, h2: Heap)
    requires Ok(h) && b !in h.live && DescFor(size).None? && Allocated(h, size, h1, b) && Freed(h1, b, h2)
    ensures h2 == h
  {
    FreeRunIsApart(h, b.page, BigPages(size)) by { assert Core(h); }
    hide Core, BigPages;
    assert b == Block(b.page, 0);
    assert h2.arenas == h.arenas;
    assert h2.live == h.live;
    assert h2.used == h.used;
  }

  // ----- blocks that stay -----

  lemma LiveInArena(h: Heap)
    requires Core(h)
    ensures forall b | b in h.live :: InArena(h, b)
  {
  }

  lemma AllocationUntouched(h: Heap, size: nat, h': Heap, b: Block, mem: Bytes)
    requires Ok(h) && Allocated(h, size, h', b)
    ensures Untouched(h, mem, h', mem, h.live.Keys)
  {
    LiveInArena(h);
    hide Ok, InArena, BlocksPerArena, NewBlocks, BigPages;
    forall c | c in h.live ensures SamePlace(h, h', c) {
      assert InArena(h, c);
      AllocationKeeps(h, size, h', b, c);
    }
    PlacesUntouched(h, h', mem, h.live.Keys);
  }

  lemma AllocationKeeps(h: Heap, size: nat, h': Heap, b: Block, c: Block)
    requires Ok(h) && Allocated(h, size, h', b) && InArena(h, c)
    ensures SamePlace(h, h', c)
  {
    assert Core(h);
    hide Core, NoneIdleBut, BlocksPerArena, NewBlocks;
    match DescFor(size)
    case None => FreeRunIsApart(h, b.page, BigPages(size));
    case Some(k) => if h.free[k] == [] { FreeRunIsApart(h, b.page, 1); }
  }

  /** The loop of malloc_init: block size and blocks per arena of every descriptor. */
  method MallocInit() returns (descs: seq<(nat, nat)>)
    ensures |descs| == DESC_CNT && forall k: nat | k < DESC_CNT :: descs[k] == (BlockSize(k), BlocksPerArena(k))
  {
    descs := [];
    var blockSize := 16;
    while blockSize < 4096 / 2
      invariant |descs| <= DESC_CNT && blockSize == [16, 32, 64, 128, 256, 512, 1024, 2048][|descs|]
      invariant forall k: nat | k < |descs| :: descs[k] == (BlockSize(k), BlocksPerArena(k))
      decreases DESC_CNT - |descs|
    {
      descs := descs + [(blockSize, (4096 - 12) / blockSize)];
      blockSize := blockSize * 2;
    }
  }

  class Allocator {
    var used: seq<bool>
    var arenas: map<nat, Arena>
    var free: seq<seq<Block>>
    var mem: Bytes
    ghost var live: map<Block, nat>

    ghost function View(): Heap
      reads this
    {
      Heap(used, arenas, free, live)
    }

    ghost predicate Valid()
      reads this
    {
      Ok(View()) && |mem| == 4096 * |used|
    }

    /** init_pool and malloc_init: every page of the pool is free. */
    constructor (memory: Bytes)
      requires |memory| % 4096 == 0
      ensures Valid() && live == map[] && arenas == map[] && mem == memory && used == seq(|memory| / 4096, _ => false)
    {
      used, mem := seq(|memory| / 4096, _ => false), memory;
      arenas, live := map[], map[];
      free := seq(7, _ => []);
    }

    /** bitmap_scan_and_flip on the pool's map. */
    method PallocGetMultiple(cnt: nat, zero: bool) returns (p: Option<nat>)
      requires |mem| == 4096 * |used|
      modifies this`used, this`mem
      ensures |mem| == 4096 * |used|
      ensures p.None? ==> used == old(used) && mem == old(mem) && (cnt == 0 || forall x: nat :: !AllFree(used, x, cnt))
      ensures p.Some? ==> cnt > 0 && FirstFree(old(used), p.value, cnt) && used == SetRange(old(used), p.value, cnt, true)
      ensures p.Some? ==> mem == if zero then Fill(old(mem), 4096 * p.value, 4096 * cnt, 0) else old(mem)
    {
      if cnt == 0 { return None; }
      p := ScanFree(used, cnt);
      if p.Some? {
        used := SetRange(used, p.value, cnt, true);
        if zero { mem := Fill(mem, 4096 * p.value, 4096 * cnt, 0); }
      }
    }

    method PallocFreeMultiple(p: nat, cnt: nat)
      requires |mem| == 4096 * |used| && AllMarked(used, p, cnt) && cnt > 0
      modifies this`used, this`mem
      ensures used == SetRange(old(used), p, cnt, false) && mem == Fill(old(mem), 4096 * p, 4096 * cnt, 0xcc)
    {
      mem := Fill(mem, 4096 * p, 4096 * cnt, 0xcc);
      used := SetRange(used, p, cnt, false);
    }

    /** The search for the smallest descriptor in malloc; DESC_CNT if there is none. */
    method FindDesc(size: nat) returns (k: nat)
      ensures DescFor(size) == if k == DESC_CNT then None else Some(k)
      ensures k <= DESC_CNT
    {
      k := 0;
      while k < DESC_CNT && BlockSize(k) < size
        invariant k <= DESC_CNT && forall j: nat | j < k :: BlockSize(j) < size
      {
        k := k + 1;
      }
      Smallest(size, k);
    }

    /** A new arena on page p, all of whose blocks are free. */
    method NewArena(k: nat, p: nat, ghost h: Heap)
      requires k < DESC_CNT && |free| == DESC_CNT && h == View().(used := h.used) && used == SetRange(h.used, p, 1, true)
      modifies this`arenas, this`free
      ensures View() == AddArena(h, k, p)
    {
      hide BlocksPerArena;
      var n := BlocksPerArena(k);
      arenas := arenas[p := Arena(Some(k), n)];
      ghost var was := free;
      assert was[k] + NewBlocks(p, 0) == was[k];
      for i := 0 to n
        invariant |free| == |was| && free == was[k := was[k] + NewBlocks(p, i)]
        invariant arenas == old(arenas)[p := Arena(Some(k), n)]
      {
        NewBlocksGrow(p, i);
        free := free[k := free[k] + [Block(p, i)]];
        assert was[k] + NewBlocks(p, i) + [Block(p, i)] == was[k] + NewBlocks(p, i + 1);
      }
    }

    /** Takes the first free block. */
    method TakeBlock(k: nat, ghost size: nat) returns (b: Block)
      requires CanTake(View(), k)
      modifies this`arenas, this`free, this`live
      ensures b == old(free)[k][0] && View() == Take(old(View()), k, size)
    {
      b := free[k][0];
      free := free[k := free[k][1..]];
      arenas := arenas[b.page := arenas[b.page].(freeCnt := arenas[b.page].freeCnt - 1)];
      live := live[b := size];
    }

    /** malloc. It fails exactly when memory is exhausted or nothing was asked for, and then
        changes nothing. The block is new, no other block is touched, and it has room for the
        request unless the size in pages wrapped around. */
    method Malloc(size: nat) returns (r: Option<Block>)
      requires Valid() && size < B32
      modifies this`used, this`arenas, this`free, this`mem, this`live
      ensures Valid() && mem == old(mem)
      ensures r.None? <==> Exhausted(old(View()), size)
      ensures r.None? ==> View() == old(View())
      ensures r.Some? ==> Allocated(old(View()), size, View(), r.value)
      ensures r.Some? ==> r.value !in old(live) && live == old(live)[r.value := size]
      ensures r.Some? ==> InArena(View(), r.value) && (size <= LARGEST ==> size <= Usable(arenas[r.value.page]))
      ensures Untouched(old(View()), old(mem), View(), mem, old(live).Keys)
    {
      hide Ok, Untouched, Exhausted, Allocated, AddArena, Take, CanTake, AllFree, InArena, Usable;
      ghost var h := View();
      OkFacts(h);
      SelfUntouched(h, mem);
      if size == 0 { NothingAsked(h); return None; }
      var k := FindDesc(size);
      if k == DESC_CNT {
        var pageCnt := U32(U32(size + 12) + 4095) / 4096;
        var p := PallocGetMultiple(pageCnt, false);
        BigExhausted(h, size, p);
        if p.None? { return None; }
        AddBigKeeps(h, p.value, pageCnt, size);
        arenas := arenas[p.value := Arena(None, pageCnt)];
        live := live[Block(p.value, 0) := size];
        r := Some(Block(p.value, 0));
        BigAllocated(h, size, View(), r.value);
      } else {
        if free[k] == [] {
          var p := PallocGetMultiple(1, false);
          SmallExhausted(h, size, k, p);
          if p.None? { return None; }
          AddKeeps(h, k, p.value);
          NewArena(k, p.value, h);
          ghost var g := View();
          FreshArena(g, k, p.value);
          TakeKeeps(g, k, size, Some(p.value));
          var b := TakeBlock(k, size);
          r := Some(b);
          FreshAllocated(h, size, k, View(), b);
        } else {
          TakeKeeps(h, k, size, None);
          var b := TakeBlock(k, size);
          r := Some(b);
          OldAllocated(h, size, k, View(), b);
        }
      }
      AllocationUntouched(h, size, View(), r.value, mem);
      AllocationLive(h, size, View(), r.value);
      OkFacts(View());
    }

    /** The list_remove calls of free on the blocks of a wholly free arena, and the return of
        its page. */
    method DropArena(p: nat)
      requires Core(View()) && Idle(View(), p) && |mem| == 4096 * |used|
      modifies this`used, this`arenas, this`free, this`mem
      ensures Dropped(old(View()), View(), p) && mem == Fill(old(mem), 4096 * p, 4096, 0xcc)
    {
      ghost var h := View();
      IdleFacts(h, p);
      hide Core, Idle, BlocksPerArena;
      var k := arenas[p].desc.value;
      RemoveBlocks(p, k, BlocksPerArena(k));
      PallocFreeMultiple(p, 1);
      arenas := arenas - {p};
      DroppedIs(h, View(), p, BlocksPerArena(k));
    }

    /** The loop of list_remove calls. */
    method RemoveBlocks(p: nat, k: nat, n: nat)
      requires |free| == DESC_CNT && k < DESC_CNT && NoRepeats(free[k]) && forall i: nat | i < n :: Block(p, i) in free[k]
      modifies this`free
      ensures |free| == DESC_CNT && (forall j | 0 <= j < DESC_CNT && j != k :: free[j] == old(free)[j]) && NoRepeats(free[k])
      ensures forall b :: b in free[k] <==> b in old(free)[k] && !(b.page == p && b.idx < n)
    {
      for i := 0 to n
        invariant |free| == DESC_CNT && (forall j | 0 <= j < DESC_CNT && j != k :: free[j] == old(free)[j]) && NoRepeats(free[k])
        invariant forall b :: b in free[k] <==> b in old(free)[k] && !(b.page == p && b.idx < i)
      {
        assert Block(p, i) in free[k];
        RemovedContents(free[k], Block(p, i));
        free := free[k := Removed(free[k], Block(p, i))];
      }
    }

    /** Puts a block at the head of its free list. */
    method GiveBlock(b: Block)
      requires CanGive(View(), b)
      modifies this`arenas, this`free, this`live
      ensures View() == Give(old(View()), b)
    {
      var a := arenas[b.page];
      var k := a.desc.value;
      free := free[k := [b] + free[k]];
      arenas := arenas[b.page := a.(freeCnt := a.freeCnt + 1)];
      live := live - {b};
    }

    /** free. Nothing but the freed block is touched; a wholly unused arena goes back to the
        page allocator. */
    method Free(p: Option<Block>)
      requires Valid() && (p.Some? ==> p.value in live)
      modifies this`used, this`arenas, this`free, this`mem, this`live
      ensures Valid()
      ensures p.None? ==> View() == old(View()) && mem == old(mem)
      ensures p.Some? ==> Freed(old(View()), p.value, View()) && live == old(live) - {p.value}
      ensures p.Some? ==> Untouched(old(View()), old(mem), View(), mem, old(live).Keys - {p.value})
    {
      if p.None? { return; }
      var b := p.value;
      ghost var h, mem0 := View(), mem;
      FreeFacts(h, b);
      if arenas[b.page].desc.Some? {
        FreeSmall(b);
      } else {
        FreeBig(b);
      }
    }

    method FreeBig(b: Block)
      requires Valid() && b in live && InArena(View(), b) && arenas[b.page].desc.None?
      modifies this`used, this`arenas, this`free, this`mem, this`live
      ensures Valid() && Freed(old(View()), b, View()) && live == old(live) - {b}
      ensures Untouched(old(View()), old(mem), View(), mem, old(live).Keys - {b})
    {
      ghost var h, mem0 := View(), mem;
      DropBigKeeps(h, b);
      OkFacts(h);
      ghost var keep := live.Keys - {b};
      OthersElsewhere(h, b);
      hide Ok, Core, NoneIdleBut, Untouched, AllMarked;
      PallocFreeMultiple(b.page, arenas[b.page].freeCnt);
      PagesUntouched(h, mem0, mem, b.page, keep);
      arenas := arenas - {b.page};
      live := live - {b};
      BigPlaces(h, b);
      PlacesUntouched(h, View(), mem, keep);
      UntouchedTrans(h, mem0, h, mem, View(), mem, keep);
    }

    method FreeSmall(b: Block)
      requires Valid() && b in live && InArena(View(), b) && arenas[b.page].desc.Some?
      modifies this`used, this`arenas, this`free, this`mem, this`live
      ensures Valid() && Freed(old(View()), b, View()) && live == old(live) - {b}
      ensures Untouched(old(View()), old(mem), View(), mem, old(live).Keys - {b})
    {
      ghost var h, mem0 := View(), mem;
      GiveKeeps(h, b);
      OkFacts(h);
      ghost var keep := live.Keys - {b};
      var a := arenas[b.page];
      BlockAligned(h, b);
      hide Ok, Core, NoneIdleBut, Untouched, Idle, Give, InArena, BlocksPerArena;
      assert Aligned(Address(a, b), a.desc.value) && BlockToArena(Address(a, b)) == b.page;
      mem := Fill(mem, Address(a, b), BlockSize(a.desc.value), 0xcc);
      WriteUntouched(h, mem0, mem, b, Usable(a), keep);
      ghost var mem1 := mem;
      GiveBlock(b);
      ghost var g := View();
      GivePlaces(h, b, g, mem1, keep);
      UntouchedTrans(h, mem0, h, mem1, g, mem1, keep);
      assert g.live == live == h.live - {b} by { GiveLive(h, b); }
      if arenas[b.page].freeCnt >= BlocksPerArena(a.desc.value) {
        IdleIs(h, b, g);
        DropArena(b.page);
        DropKeeps(g, View(), b.page);
        DropPlaces(g, View(), b.page, mem1, mem);
        UntouchedTrans(h, mem0, g, mem1, View(), mem, keep);
        FreedDropped(h, b, View());
      } else {
        NotIdleIs(h, b, g);
        NotIdle(g, b.page);
        FreedGiven(h, b, g);
      }
    }

    /** calloc: a block of zeros. The test catches some of the products that wrap around. When
        the block that malloc found is too small, the zeros go on behind it, and nothing is
        promised. */
    method Calloc(a: nat, b: nat) returns (r: Option<Block>)
      requires Valid() && a < B32 && b < B32
      modifies this`used, this`arenas, this`free, this`mem, this`live
      ensures r.None? <==> U32(a * b) < a || U32(a * b) < b || Exhausted(old(View()), U32(a * b))
      ensures r.None? ==> Valid() && View() == old(View()) && mem == old(mem)
      ensures r.Some? ==> r.value !in old(live)
      ensures r.Some? && U32(a * b) <= LARGEST ==>
                && Valid() && live == old(live)[r.value := U32(a * b)] && InArena(View(), r.value)
                && Untouched(old(View()), old(mem), View(), mem, old(live).Keys)
                && forall i | Address(arenas[r.value.page], r.value) <= i < Address(arenas[r.value.page], r.value) + U32(a * b) :: i < |mem| && mem[i] == 0
    {
      var size := U32(a * b);
      if size < a || size < b { return None; }
      ghost var h := View();
      r := Malloc(size);
      hide Untouched, Ok, Exhausted;
      if r.Some? {
        ghost var mem0 := mem;
        OkFacts(View());
        mem := Fill(mem, Address(arenas[r.value.page], r.value), size, 0);
        if size <= LARGEST {
          InMemory(View(), r.value, |mem|);
          SameInArena(h, mem0, View(), mem0, h.live.Keys);
          WriteUntouched(View(), mem0, mem, r.value, size, h.live.Keys);
          UntouchedTrans(h, mem0, View(), mem0, View(), mem, h.live.Keys);
        }
      }
    }

    /** realloc. On success the new block starts with the bytes of the old one, as far as both
        reach, and the old one is free; on failure nothing changes. When the copy does not fit
        the new block, nothing is promised. */
    method Realloc(oldBlock: Option<Block>, newSize: nat) returns (r: Option<Block>)
      requires Valid() && newSize < B32 && (oldBlock.Some? ==> oldBlock.value in live)
      modifies this`used, this`arenas, this`free, this`mem, this`live
      ensures r.None? && newSize > 0 ==> Valid() && View() == old(View()) && mem == old(mem) && Exhausted(old(View()), newSize)
      ensures newSize == 0 ==> r.None? && Valid() && live == old(live) - Given(oldBlock)
      ensures r.Some? ==> r.value !in old(live)
      ensures r.Some? && CopyFits(old(View()), oldBlock, newSize) ==>
                && Valid() && live == (old(live) - Given(oldBlock))[r.value := newSize] && InArena(View(), r.value)
                && Untouched(old(View()), old(mem), View(), mem, old(live).Keys - Given(oldBlock))
      ensures r.Some? && oldBlock.Some? && CopyFits(old(View()), oldBlock, newSize) ==>
                Preserved(old(View()), old(mem), oldBlock.value, View(), mem, r.value, newSize)
    {
      hide Ok, Untouched, Freed, Allocated, Exhausted, SameBlock, InArena, Preserved, Usable, CopyFits;
      ghost var h, mem0 := View(), mem;
      if newSize == 0 {
        Free(oldBlock);
        return None;
      }
      r := Malloc(newSize);
      if oldBlock.Some? && r.Some? {
        ghost var h1 := View();
        StillThere(h, oldBlock.value);
        FitIs(h, mem0, oldBlock.value, newSize, h1, r.value);
        MoveBlock(oldBlock.value, r.value, newSize);
        assert (h.live[r.value := newSize]) - {oldBlock.value} == (h.live - {oldBlock.value})[r.value := newSize];
        if CopyFits(h, oldBlock, newSize) {
          Reallocated(h, mem0, h1, View(), mem, oldBlock.value, r.value, newSize);
        }
      } else if r.Some? {
        assert old(live) - Given(oldBlock) == old(live);
      }
    }

    /** The copy and the release in realloc, when the copy stays inside the new block. */
    method MoveBlock(b: Block, c: Block, newSize: nat)
      requires Valid() && b in live && c in live && b != c
      modifies this`used, this`arenas, this`free, this`mem, this`live
      ensures old(StaysInside(View(), b, c, newSize)) ==>
                && Valid() && live == old(live) - {b} && InArena(View(), c)
                && Untouched(old(View()), old(mem), View(), mem, old(live).Keys - {b, c})
                && Preserved(old(View()), old(mem), b, View(), mem, c, newSize)
    {
      ghost var h, mem0 := View(), mem;
      FreeFacts(h, b);
      FreeFacts(h, c);
      var oldSize := Usable(arenas[b.page]);
      var minSize := if newSize < oldSize then newSize else oldSize;
      mem := Copy(mem, Address(arenas[c.page], c), Address(arenas[b.page], b), minSize);
      hide Ok, Untouched, Freed, SameBlock, InArena, Preserved, Usable, Address, Copy, StaysInside;
      ghost var mem1 := mem;
      Free(Some(b));
      StillThere(View(), c);
      if StaysInside(h, b, c, newSize) { Moved(h, mem0, mem1, View(), mem, b, c, newSize); }
    }
  }

  /** The smaller of the request and the old block is no larger than the new block. */
  ghost predicate StaysInside(h: Heap, b: Block, c: Block, newSize: nat) {
    InArena(h, b) && InArena(h, c) && (newSize <= Usable(h.arenas[c.page]) || Usable(h.arenas[b.page]) <= Usable(h.arenas[c.page]))
  }

  /** What a caller of realloc can check: the request is one that malloc serves in full, or the
      old block is no larger than what is left of one page. */
  ghost predicate CopyFits(h: Heap, oldBlock: Option<Block>, newSize: nat) {
    oldBlock.Some? ==> newSize <= LARGEST || (InArena(h, oldBlock.value) && Usable(h.arenas[oldBlock.value.page]) <= 4084)
  }

  /** A block that malloc returns for too large a request is what is left of one page. */
  lemma TooLargeGetsOnePage(h: Heap, size: nat, h': Heap, c: Block)
    requires Allocated(h, size, h', c) && LARGEST < size < B32
    ensures InArena(h', c) && Usable(h'.arenas[c.page]) == 4084 < size
  {
    assert BigPages(size) <= 1;
  }

  /** The copy in realloc stays inside the new block exactly under that condition. */
  lemma FitIs(h: Heap, mem: Bytes, b: Block, newSize: nat, h1: Heap, c: Block)
    requires Allocated(h, newSize, h1, c) && newSize < B32 && b in h.live && InArena(h, b)
    requires InArena(h1, c) && (newSize <= LARGEST ==> newSize <= Usable(h1.arenas[c.page]))
    requires Untouched(h, mem, h1, mem, h.live.Keys)
    ensures StaysInside(h1, b, c, newSize) <==> CopyFits(h, Some(b), newSize)
  {
    assert SameBlock(h, mem, h1, mem, b);
    if newSize > LARGEST { TooLargeGetsOnePage(h, newSize, h1, c); }
    hide Allocated, Usable, InArena;
  }

  // Four pages: a block of two, a free page, and a block of one.
  const CROWDED := Heap([true, true, false, true], map[0 := Arena(None, 2), 3 := Arena(None, 1)], seq(7, _ => []),
                        map[Block(0, 0) := 8000, Block(3, 0) := 4000])

  /** realloc of the first block to 0xFFFFFFFF bytes: malloc finds the free page, and the copy runs
      on over the header of the last arena. */
  lemma ReallocOverruns()
    ensures Ok(CROWDED) && Block(0, 0) in CROWDED.live && !CopyFits(CROWDED, Some(Block(0, 0)), 0xFFFF_FFFF)
    ensures var c, h1 := Block(2, 0), AddBig(CROWDED, 2, 1, 0xFFFF_FFFF);
            && Allocated(CROWDED, 0xFFFF_FFFF, h1, c) && InArena(h1, c) && 3 in h1.arenas
            && End(h1, c) == 4096 * 3 < 4096 * 3 + HEADER <= Address(h1.arenas[2], c) + Usable(CROWDED.arenas[0])
  {
    CrowdedIsOk();
    assert BigPages(0xFFFF_FFFF) == 1;
    forall y: nat | y < 2 ensures !AllFree(CROWDED.used, y, 1) { assert CROWDED.used[y]; }
    hide Ok;
  }

  lemma CrowdedIsOk()
    ensures Ok(CROWDED)
  {
    var h := CROWDED;
    forall p | p in h.arenas ensures RunOk(h.used, p, h.arenas[p]) && BlocksOk(h, p, h.arenas[p]) {}
    assert RunsDisjoint(h) && ListsOk(h) && LiveOk(h);
  }

  function Given(p: Option<Block>): set<Block> { if p.Some? then {p.value} else {} }

  /** The first bytes of the old block, as far as the request and the old block reach. */
  ghost predicate Preserved(h: Heap, mem: Bytes, b: Block, h': Heap, mem': Bytes, c: Block, newSize: nat) {
    && InArena(h, b) && InArena(h', c)
    && forall i: nat | i < newSize && i < Usable(h.arenas[b.page]) ::
         SameByte(mem, Address(h.arenas[b.page], b), mem', Address(h'.arenas[c.page], c), i)
  }

  predicate SameByte(mem: Bytes, src: nat, mem': Bytes, dst: nat, i: nat) {
    src + i < |mem| && dst + i < |mem'| && mem'[dst + i] == mem[src + i]
  }

  // ----- facts for malloc -----

  lemma Smallest(size: nat, k: nat)
    requires k <= DESC_CNT && (forall j: nat | j < k :: BlockSize(j) < size) && (k < DESC_CNT ==> BlockSize(k) >= size)
    ensures DescFor(size) == if k == DESC_CNT then None else Some(k)
  {
  }

  lemma NewBlocksGrow(p: nat, i: nat)
    ensures NewBlocks(p, i + 1) == NewBlocks(p, i) + [Block(p, i)]
  {
  }

  lemma OkFacts(h: Heap)
    requires Ok(h)
    ensures Core(h) && |h.free| == DESC_CNT && NoneIdleBut(h, None)
    ensures forall b | b in h.live :: InArena(h, b) && (h.live[b] <= LARGEST ==> h.live[b] <= Usable(h.arenas[b.page]))
  {
  }

  lemma SelfUntouched(h: Heap, mem: Bytes)
    requires forall b | b in h.live :: InArena(h, b)
    ensures Untouched(h, mem, h, mem, h.live.Keys)
  {
    forall b | b in h.live ensures SameBlock(h, mem, h, mem, b) { assert InArena(h, b); }
  }

  lemma NothingAsked(h: Heap)
    ensures Exhausted(h, 0)
  {
  }

  lemma BigExhausted(h: Heap, size: nat, p: Option<nat>)
    requires DescFor(size).None? && size < B32
    requires p.None? ==> BigPages(size) == 0 || forall x: nat :: !AllFree(h.used, x, BigPages(size))
    requires p.Some? ==> BigPages(size) > 0 && AllFree(h.used, p.value, BigPages(size))
    ensures p.None? <==> Exhausted(h, size)
  {
    hide BigPages, AllFree;
  }

  lemma SmallExhausted(h: Heap, size: nat, k: nat, p: Option<nat>)
    requires DescFor(size) == Some(k) && |h.free| == DESC_CNT && h.free[k] == [] && size > 0
    requires p.None? ==> forall x: nat :: !AllFree(h.used, x, 1)
    requires p.Some? ==> AllFree(h.used, p.value, 1)
    ensures p.None? <==> Exhausted(h, size)
  {
    hide AllFree;
  }

  lemma BigAllocated(h: Heap, size: nat, h': Heap, b: Block)
    requires DescFor(size).None? && |h.free| == DESC_CNT && b.idx == 0 && BigPages(size) > 0 && FirstFree(h.used, b.page, BigPages(size))
    requires h' == AddBig(h, b.page, BigPages(size), size)
    ensures Allocated(h, size, h', b)
  {
  }

  lemma FreshArena(g: Heap, k: nat, p: nat)
    requires Core(g) && k < DESC_CNT && g.free[k] != [] && g.free[k][0] == Block(p, 0)
    ensures CanTake(g, k)
  {
    CanTakeIs(g, k);
  }

  lemma FreshAllocated(h: Heap, size: nat, k: nat, h': Heap, b: Block)
    requires DescFor(size) == Some(k) && |h.free| == DESC_CNT && h.free[k] == [] && size > 0 && FirstFree(h.used, b.page, 1)
    requires CanTake(AddArena(h, k, b.page), k) && b == AddArena(h, k, b.page).free[k][0] == Block(b.page, 0)
    requires h' == Take(AddArena(h, k, b.page), k, size)
    ensures Allocated(h, size, h', b) && !Exhausted(h, size)
  {
  }

  lemma OldAllocated(h: Heap, size: nat, k: nat, h': Heap, b: Block)
    requires DescFor(size) == Some(k) && |h.free| == DESC_CNT && h.free[k] != [] && size > 0
    requires CanTake(h, k) && b == h.free[k][0] && h' == Take(h, k, size)
    ensures Allocated(h, size, h', b) && !Exhausted(h, size)
  {
  }

  lemma AllocationLive(h: Heap, size: nat, h': Heap, b: Block)
    requires Allocated(h, size, h', b)
    ensures h'.live == h.live[b := size]
  {
    hide BlocksPerArena, NewBlocks;
  }

  // ----- facts for free -----

  lemma IdleFacts(h: Heap, p: nat)
    requires Core(h) && Idle(h, p)
    ensures var k := h.arenas[p].desc.value;
            && NoRepeats(h.free[k]) && h.arenas[p].freeCnt == BlocksPerArena(k)
            && (forall i: nat | i < BlocksPerArena(k) :: Block(p, i) in h.free[k])
            && (forall b | b in h.free[k] && b.page == p :: b.idx < BlocksPerArena(k))
    ensures AllMarked(h.used, p, 1)
  {
    IdleIsAllFree(h, p);
    var k := h.arenas[p].desc.value;
    assert RunOk(h.used, p, h.arenas[p]);
    hide BlocksPerArena;
    forall b | b in h.free[k] && b.page == p ensures b.idx < BlocksPerArena(k) { assert OnList(h, k, b); }
  }

  lemma DroppedIs(h: Heap, h': Heap, p: nat, n: nat)
    requires Idle(h, p) && h'.used == SetRange(h.used, p, 1, false) && h'.arenas == h.arenas - {p} && h'.live == h.live
    requires var k := h.arenas[p].desc.value;
             && |h'.free| == |h.free| && NoRepeats(h'.free[k]) && (forall j | 0 <= j < DESC_CNT && j != k :: h'.free[j] == h.free[j])
             && (forall b :: b in h'.free[k] <==> b in h.free[k] && !(b.page == p && b.idx < n))
             && (forall b | b in h.free[k] && b.page == p :: b.idx < n)
    ensures Dropped(h, h', p)
  {
    hide BlocksPerArena;
  }

  lemma FreeFacts(h: Heap, b: Block)
    requires Ok(h) && b in h.live
    ensures InArena(h, b)
  {
  }

  lemma BlockAligned(h: Heap, b: Block)
    requires InArena(h, b) && h.arenas[b.page].desc.Some?
    ensures var a := h.arenas[b.page];
            Aligned(Address(a, b), a.desc.value) && BlockToArena(Address(a, b)) == b.page && Usable(a) == BlockSize(a.desc.value)
  {
    BlockToArenaRoundTrip(b.page, b.idx, h.arenas[b.page].desc.value);
  }

  /** A big block is alone in its pages. */
  lemma OthersElsewhere(h: Heap, b: Block)
    requires Core(h) && b in h.live && InArena(h, b) && h.arenas[b.page].desc.None?
    ensures forall c | c in h.live.Keys - {b} :: InArena(h, c) && c.page != b.page
  {
    forall c | c in h.live.Keys - {b} ensures InArena(h, c) && c.page != b.page {
      assert InArena(h, c) && Block(c.page, c.idx) == c && Block(b.page, b.idx) == b;
    }
  }

  lemma BigPlaces(h: Heap, b: Block)
    requires b.page in h.arenas && forall c | c in h.live.Keys - {b} :: InArena(h, c) && c.page != b.page
    ensures forall c | c in h.live.Keys - {b} :: SamePlace(h, DropBig(h, b), c)
  {
  }

  lemma GiveLive(h: Heap, b: Block)
    requires CanGive(h, b)
    ensures Give(h, b).live == h.live - {b}
  {
  }

  lemma GivePlaces(h: Heap, b: Block, g: Heap, mem: Bytes, keep: set<Block>)
    requires CanGive(h, b) && g == Give(h, b) && forall c | c in keep :: InArena(h, c)
    ensures Untouched(h, mem, g, mem, keep) && b.page in g.arenas && g.arenas[b.page].desc == h.arenas[b.page].desc
  {
    forall c | c in keep ensures SamePlace(h, g, c) { assert InArena(h, c); }
    PlacesUntouched(h, g, mem, keep);
  }

  lemma IdleIs(h: Heap, b: Block, g: Heap)
    requires CanGive(h, b) && g == Give(h, b) && g.arenas[b.page].freeCnt >= BlocksPerArena(h.arenas[b.page].desc.value)
    ensures Idle(g, b.page)
  {
    hide BlocksPerArena;
  }

  lemma NotIdleIs(h: Heap, b: Block, g: Heap)
    requires CanGive(h, b) && g == Give(h, b) && g.arenas[b.page].freeCnt < BlocksPerArena(h.arenas[b.page].desc.value)
    ensures !Idle(g, b.page)
  {
    hide BlocksPerArena;
  }

  lemma FreedDropped(h: Heap, b: Block, h': Heap)
    requires CanGive(h, b) && Idle(Give(h, b), b.page) && Dropped(Give(h, b), h', b.page)
    ensures Freed(h, b, h') && h'.live == h.live - {b}
  {
    hide BlocksPerArena;
  }

  lemma FreedGiven(h: Heap, b: Block, g: Heap)
    requires CanGive(h, b) && g == Give(h, b) && !Idle(g, b.page)
    ensures Freed(h, b, g) && g.live == h.live - {b}
  {
    hide BlocksPerArena;
  }

  lemma DropPlaces(g: Heap, g': Heap, p: nat, mem: Bytes, mem': Bytes)
    requires Core(g) && Idle(g, p) && Dropped(g, g', p) && mem' == Fill(mem, 4096 * p, 4096, 0xcc)
    requires forall c | c in g.live :: c.page != p
    ensures Untouched(g, mem, g', mem', g.live.Keys)
  {
    LiveInArena(g);
    var keep := g.live.Keys;
    hide Core, BlocksPerArena, Untouched, InArena;
    PagesUntouched(g, mem, mem', p, keep);
    forall c | c in keep ensures SamePlace(g, g', c) { assert InArena(g, c); InArenaHasPage(g, c); }
    PlacesUntouched(g, g', mem', keep);
    UntouchedTrans(g, mem, g, mem', g', mem', keep);
  }

  lemma InArenaHasPage(h: Heap, b: Block)
    requires InArena(h, b)
    ensures b.page in h.arenas
  {
  }

  // ----- facts for calloc and realloc -----

  lemma InMemory(h: Heap, b: Block, n: nat)
    requires Core(h) && InArena(h, b) && n == 4096 * |h.used|
    ensures 0 <= Address(h.arenas[b.page], b) && End(h, b) <= n
  {
    assert RunOk(h.used, b.page, h.arenas[b.page]);
    BlockInRun(h, b);
  }

  lemma SameInArena(h: Heap, mem: Bytes, h': Heap, mem': Bytes, keep: set<Block>)
    requires Untouched(h, mem, h', mem', keep)
    ensures forall b | b in keep :: InArena(h', b) && SameBlock(h, mem, h', mem', b)
  {
    forall b | b in keep ensures InArena(h', b) { assert SameBlock(h, mem, h', mem', b); }
  }

  lemma StillThere(h: Heap, b: Block)
    requires Ok(h) && b in h.live
    ensures InArena(h, b)
  {
  }

  lemma Moved(h: Heap, mem0: Bytes, mem1: Bytes, h2: Heap, mem2: Bytes, b: Block, c: Block, newSize: nat)
    requires Ok(h) && |mem0| == 4096 * |h.used| && b in h.live && c in h.live && b != c
    requires StaysInside(h, b, c, newSize)
    requires var oldSize := Usable(h.arenas[b.page]);
             mem1 == Copy(mem0, Address(h.arenas[c.page], c), Address(h.arenas[b.page], b), if newSize < oldSize then newSize else oldSize)
    requires Untouched(h, mem1, h2, mem2, h.live.Keys - {b})
    ensures Preserved(h, mem0, b, h2, mem2, c, newSize) && Untouched(h, mem0, h2, mem2, h.live.Keys - {b, c})
  {
    OkFacts(h);
    LiveInArena(h);
    hide Ok, Untouched, Copy, SameBlock, Preserved, Usable, Address, Core;
    var oldSize := Usable(h.arenas[b.page]);
    var n := if newSize < oldSize then newSize else oldSize;
    SameInArena(h, mem1, h2, mem2, h.live.Keys - {b});
    PreservedIs(h, mem0, mem1, h2, mem2, b, c, newSize);
    CopyUntouched(h, mem0, mem1, b, c, n, h.live.Keys - {b, c});
    UntouchedFewer(h, mem1, h2, mem2, h.live.Keys - {b}, h.live.Keys - {b, c});
    UntouchedTrans(h, mem0, h, mem1, h2, mem2, h.live.Keys - {b, c});
  }

  lemma CopyUntouched(h: Heap, mem: Bytes, mem': Bytes, b: Block, c: Block, n: int, keep: set<Block>)
    requires Core(h) && InArena(h, b) && InArena(h, c) && n <= Usable(h.arenas[c.page])
    requires mem' == Copy(mem, Address(h.arenas[c.page], c), Address(h.arenas[b.page], b), n)
    requires forall x | x in keep :: InArena(h, x) && x != c
    ensures Untouched(h, mem, h, mem', keep)
  {
    hide Untouched, Core;
    WriteUntouched(h, mem, mem', c, n, keep);
  }

  lemma PreservedIs(h: Heap, mem0: Bytes, mem1: Bytes, h2: Heap, mem2: Bytes, b: Block, c: Block, newSize: nat)
    requires Core(h) && |mem0| == 4096 * |h.used| && b != c && StaysInside(h, b, c, newSize)
    requires SameBlock(h, mem1, h2, mem2, c)
    requires var oldSize := Usable(h.arenas[b.page]);
             mem1 == Copy(mem0, Address(h.arenas[c.page], c), Address(h.arenas[b.page], b), if newSize < oldSize then newSize else oldSize)
    ensures Preserved(h, mem0, b, h2, mem2, c, newSize)
  {
    InMemory(h, b, |mem0|);
    InMemory(h, c, |mem0|);
    var src, dst, oldSize := Address(h.arenas[b.page], b), Address(h.arenas[c.page], c), Usable(h.arenas[b.page]);
    var n := if newSize < oldSize then newSize else oldSize;
    assert dst == Address(h2.arenas[c.page], c) && |mem2| == |mem1| && dst + n <= |mem0| && src + oldSize <= |mem0|;
    assert forall i | dst <= i < dst + n && i < |mem1| :: mem2[i] == mem1[i];
    hide Core, Address, Usable;
    Copied(mem0, mem1, mem2, src, dst, n);
  }

  lemma Copied(mem0: Bytes, mem1: Bytes, mem2: Bytes, src: nat, dst: nat, n: int)
    requires mem1 == Copy(mem0, dst, src, n) && |mem2| == |mem1| && src + n <= |mem0| && dst + n <= |mem0|
    requires forall i | dst <= i < dst + n && i < |mem1| :: mem2[i] == mem1[i]
    ensures forall i: nat | i < n :: SameByte(mem0, src, mem2, dst, i)
  {
    hide Copy;
    forall i: nat | i < n ensures SameByte(mem0, src, mem2, dst, i) {
      assert mem1[dst + i] == mem0[src + (dst + i - dst)];
    }
  }

  /** realloc as a whole: malloc, then the move. */
  lemma Reallocated(h: Heap, mem0: Bytes, h1: Heap, h2: Heap, mem2: Bytes, b: Block, c: Block, newSize: nat)
    requires b in h.live && c !in h.live && Untouched(h, mem0, h1, mem0, h.live.Keys) && h1.live.Keys == h.live.Keys + {c}
    requires Untouched(h1, mem0, h2, mem2, h1.live.Keys - {b, c}) && Preserved(h1, mem0, b, h2, mem2, c, newSize)
    ensures Untouched(h, mem0, h2, mem2, h.live.Keys - {b}) && Preserved(h, mem0, b, h2, mem2, c, newSize)
  {
    SameInArena(h, mem0, h1, mem0, h.live.Keys);
    assert SameBlock(h, mem0, h1, mem0, b);
    hide Untouched;
    UntouchedFewer(h, mem0, h1, mem0, h.live.Keys, h.live.Keys - {b});
    assert h1.live.Keys - {b, c} == h.live.Keys - {b};
    UntouchedTrans(h, mem0, h1, mem0, h2, mem2, h.live.Keys - {b});
    PreservedFrom(h, h1, mem0, h2, mem2, b, c, newSize);
  }

  lemma PreservedFrom(h: Heap, h1: Heap, mem0: Bytes, h2: Heap, mem2: Bytes, b: Block, c: Block, newSize: nat)
    requires SameBlock(h, mem0, h1, mem0, b) && Preserved(h1, mem0, b, h2, mem2, c, newSize)
    ensures Preserved(h, mem0, b, h2, mem2, c, newSize)
  {
    hide Address, Usable;
  }

  // ----- calloc's test -----

  /** A product that wraps around and is not caught: the block is far too small. */
  lemma CallocMissesWrap()
    ensures var a, b := 0x1_0001, 0x1_0001; U32(a * b) >= a && U32(a * b) >= b && U32(a * b) < a * b
  {
  }

  /** When calloc asks for memory at all, it asks for enough exactly if the product fits in 32
      bits. */
  lemma CallocAsksForEnough(a: nat, b: nat)
    requires U32(a * b) >= a && U32(a * b) >= b
    ensures U32(a * b) >= a * b <==> a * b < B32
  {
    var x := a * b;
  }
}
