/** The kernel's heap (Project 2/src/threads/malloc.c over Project 2/src/threads/palloc.c):
    where blocks lie, and what holds of arenas, free lists and pages. */
module Heap {
  import opened Machine
  import opened Bitmaps

  const PGSIZE := 4096
  const HEADER := 12               // sizeof (struct arena)
  const DESC_CNT := 7

  /** The largest request whose size in pages is computed without wrapping around. */
  const LARGEST := 0xFFFF_FFF4

  function BlockSize(k: nat): (n: nat)
    requires k < DESC_CNT
  {
    [16, 32, 64, 128, 256, 512, 1024][k]
  }

  function BlocksPerArena(k: nat): (n: nat)
    requires k < DESC_CNT
  {
    (PGSIZE - HEADER) / BlockSize(k)
  }

  lemma BlocksFit(k: nat)
    requires k < DESC_CNT
    ensures BlocksPerArena(k) == [255, 127, 63, 31, 15, 7, 3][k]
    ensures HEADER + BlocksPerArena(k) * BlockSize(k) <= PGSIZE
  {
  }

  /** A block is named by its page and its number there; a big block has number 0. */
  datatype Block = Block(page: nat, idx: nat)

  /** desc is the descriptor, none for a big block; freeCnt then counts pages. */
  datatype Arena = Arena(desc: Option<nat>, freeCnt: nat)

  /** used is the map of the kernel pool. live gives the size that was asked for each block
      in use; the kernel does not record it. */
  datatype Heap = Heap(used: seq<bool>, arenas: map<nat, Arena>, free: seq<seq<Block>>, live: map<Block, nat>)

  function Pages(a: Arena): nat { if a.desc.None? then a.freeCnt else 1 }

  // ----- addresses -----

  /** arena_to_block */
  function ArenaToBlock(page: nat, idx: nat, k: nat): nat
    requires k < DESC_CNT
  {
    4096 * page + 12 + idx * BlockSize(k)
  }

  /** block_to_arena: pg_round_down */
  function BlockToArena(address: nat): nat { address / 4096 }

  /** The assertion of block_to_arena for a block of descriptor k. */
  predicate Aligned(address: nat, k: nat)
    requires k < DESC_CNT
  {
    address % 4096 >= 12 && (address % 4096 - 12) % BlockSize(k) == 0
  }

  /** A block's arena and number can be found again from its address. */
  lemma BlockToArenaRoundTrip(page: nat, idx: nat, k: nat)
    requires k < DESC_CNT && idx < BlocksPerArena(k)
    ensures BlockToArena(ArenaToBlock(page, idx, k)) == page
    ensures Aligned(ArenaToBlock(page, idx, k), k)
    ensures (ArenaToBlock(page, idx, k) % 4096 - 12) / BlockSize(k) == idx
    ensures ArenaToBlock(page, idx, k) % 4096 + BlockSize(k) <= 4096
  {
    BlocksFit(k);
    match k
    case 0 => InPage(page, idx, 16);
    case 1 => InPage(page, idx, 32);
    case 2 => InPage(page, idx, 64);
    case 3 => InPage(page, idx, 128);
    case 4 => InPage(page, idx, 256);
    case 5 => InPage(page, idx, 512);
    case _ => InPage(page, idx, 1024);
  }

  lemma InPage(page: nat, idx: nat, size: nat)
    requires size in {16, 32, 64, 128, 256, 512, 1024} && 12 + idx * size + size <= 4096
    ensures var a := 4096 * page + 12 + idx * size;
            a / 4096 == page && a % 4096 == 12 + idx * size && (a % 4096 - 12) % size == 0 && (a % 4096 - 12) / size == idx
  {
    var off := 12 + idx * size;
    assert (4096 * page + off) / 4096 == page && (4096 * page + off) % 4096 == off;
    Multiple(idx, size);
  }

  lemma Multiple(idx: nat, size: nat)
    requires size in {16, 32, 64, 128, 256, 512, 1024}
    ensures (idx * size) % size == 0 && (idx * size) / size == idx
  {
    if
    case size == 16 => assert (idx * 16) / 16 == idx;
    case size == 32 => assert (idx * 32) / 32 == idx;
    case size == 64 => assert (idx * 64) / 64 == idx;
    case size == 128 => assert (idx * 128) / 128 == idx;
    case size == 256 => assert (idx * 256) / 256 == idx;
    case size == 512 => assert (idx * 512) / 512 == idx;
    case size == 1024 => assert (idx * 1024) / 1024 == idx;
  }

  /** The address of a block of arena a. */
  function Address(a: Arena, b: Block): nat
    requires a.desc.Some? ==> a.desc.value < DESC_CNT
  {
    if a.desc.None? then 4096 * b.page + 12 else ArenaToBlock(b.page, b.idx, a.desc.value)
  }

  /** block_size */
  function Usable(a: Arena): int
    requires a.desc.Some? ==> a.desc.value < DESC_CNT
  {
    if a.desc.None? then 4096 * a.freeCnt - 12 else BlockSize(a.desc.value)
  }

  // ----- the invariant -----

  ghost function FreeIn(list: seq<Block>, p: nat): set<Block> { set b | b in list && b.page == p }

  ghost predicate NoRepeats(list: seq<Block>) { forall x, y | 0 <= x < y < |list| :: list[x] != list[y] }

  ghost predicate RunOk(used: seq<bool>, p: nat, a: Arena) {
    Pages(a) >= 1 && AllMarked(used, p, Pages(a))
  }

  /** Every block of the arena is either on the free list or in use, and free_cnt counts the
      free ones. A big block is in use. */
  ghost predicate BlocksOk(h: Heap, p: nat, a: Arena)
    requires |h.free| == DESC_CNT
  {
    if a.desc.None? then Block(p, 0) in h.live else
      && a.desc.value < DESC_CNT
      && (forall i: nat | i < BlocksPerArena(a.desc.value) :: Block(p, i) in h.free[a.desc.value] <==> Block(p, i) !in h.live)
      && a.freeCnt == |FreeIn(h.free[a.desc.value], p)|
  }

  ghost predicate ArenasOk(h: Heap) {
    && |h.free| == DESC_CNT
    && forall p | p in h.arenas :: RunOk(h.used, p, h.arenas[p]) && BlocksOk(h, p, h.arenas[p])
  }

  ghost predicate Apart(p: nat, a: Arena, q: nat, b: Arena) { p + Pages(a) <= q || q + Pages(b) <= p }

  ghost predicate RunsDisjoint(h: Heap) {
    forall p, q | p in h.arenas && q in h.arenas && p != q :: Apart(p, h.arenas[p], q, h.arenas[q])
  }

  /** The block is one of those that the arena of its page is divided into. */
  ghost predicate InArena(h: Heap, b: Block) {
    b.page in h.arenas && match h.arenas[b.page].desc
      case None => b.idx == 0
      case Some(k) => k < DESC_CNT && b.idx < BlocksPerArena(k)
  }

  ghost predicate OnList(h: Heap, k: nat, b: Block) { InArena(h, b) && h.arenas[b.page].desc == Some(k) }

  ghost predicate ListsOk(h: Heap) {
    |h.free| == DESC_CNT && forall k: nat | k < DESC_CNT :: NoRepeats(h.free[k]) && forall b | b in h.free[k] :: OnList(h, k, b)
  }

  /** A block is big enough for what was asked, unless the size wrapped around. */
  ghost predicate LiveOk(h: Heap) {
    forall b | b in h.live :: InArena(h, b) && (h.live[b] <= LARGEST ==> h.live[b] <= Usable(h.arenas[b.page]))
  }

  ghost predicate Core(h: Heap) { ArenasOk(h) && RunsDisjoint(h) && ListsOk(h) && LiveOk(h) }

  /** No arena is wholly free, except perhaps the one on page q. */
  ghost predicate NoneIdleBut(h: Heap, q: Option<nat>) {
    forall p | p in h.arenas && Some(p) != q ::
      match h.arenas[p].desc case None => true case Some(k) => k < DESC_CNT && h.arenas[p].freeCnt < BlocksPerArena(k)
  }

  ghost predicate Ok(h: Heap) { Core(h) && NoneIdleBut(h, None) }

  // ----- blocks do not overlap -----

  ghost function End(h: Heap, b: Block): int
    requires InArena(h, b)
  {
    Address(h.arenas[b.page], b) + Usable(h.arenas[b.page])
  }

  /** A block lies inside the pages of its arena, behind the header. */
  lemma BlockInRun(h: Heap, b: Block)
    requires InArena(h, b) && Pages(h.arenas[b.page]) >= 1
    ensures var a := h.arenas[b.page];
            4096 * b.page + 12 <= Address(a, b) <= End(h, b) <= 4096 * (b.page + Pages(a))
  {
    var a := h.arenas[b.page];
    if a.desc.Some? { BlockToArenaRoundTrip(b.page, b.idx, a.desc.value); BlockRange(b.page, b.idx, a.desc.value); }
  }

  lemma BlockRange(page: nat, idx: nat, k: nat)
    requires k < DESC_CNT && idx < BlocksPerArena(k)
    ensures 0 <= idx * BlockSize(k) && 12 + idx * BlockSize(k) + BlockSize(k) <= 4096
  {
    BlocksFit(k);
    match k
    case 0 => case 1 => case 2 => case 3 => case 4 => case 5 => case _ =>
  }

  lemma BlocksApart(i: nat, j: nat, k: nat)
    requires k < DESC_CNT && i < j
    ensures i * BlockSize(k) + BlockSize(k) <= j * BlockSize(k)
  {
    match k
    case 0 => case 1 => case 2 => case 3 => case 4 => case 5 => case _ =>
  }

  /** Blocks, free or in use, occupy disjoint bytes. */
  lemma BlocksAreDisjoint(h: Heap, b: Block, c: Block)
    requires ArenasOk(h) && RunsDisjoint(h) && InArena(h, b) && InArena(h, c) && b != c
    ensures End(h, b) <= Address(h.arenas[c.page], c) || End(h, c) <= Address(h.arenas[b.page], b)
  {
    assert RunOk(h.used, b.page, h.arenas[b.page]) && RunOk(h.used, c.page, h.arenas[c.page]);
    BlockInRun(h, b);
    BlockInRun(h, c);
    hide ArenasOk;
    if b.page == c.page {
      SamePageApart(h, b, c);
    } else {
      assert Apart(b.page, h.arenas[b.page], c.page, h.arenas[c.page]);
    }
  }

  lemma SamePageApart(h: Heap, b: Block, c: Block)
    requires InArena(h, b) && InArena(h, c) && b != c && b.page == c.page
    ensures End(h, b) <= Address(h.arenas[c.page], c) || End(h, c) <= Address(h.arenas[b.page], b)
  {
    var k := h.arenas[b.page].desc.value;
    if b.idx < c.idx { BlocksApart(b.idx, c.idx, k); } else { BlocksApart(c.idx, b.idx, k); }
  }
}
