/** The steps of malloc and free on the heap's bookkeeping, and why they keep its invariant. */
module HeapLemmas {
  import opened Machine
  import opened Bitmaps
  import opened Heap

  // ----- free lists -----

  lemma TailContents(list: seq<Block>)
    requires NoRepeats(list) && list != []
    ensures NoRepeats(list[1..]) && forall b :: b in list[1..] <==> b in list && b != list[0]
  {
    assert list == [list[0]] + list[1..];
    forall x | 0 <= x < |list| - 1 ensures list[1..][x] != list[0] { assert list[x + 1] != list[0]; }
    forall x, y | 0 <= x < y < |list[1..]| ensures list[1..][x] != list[1..][y] { assert list[x + 1] != list[y + 1]; }
  }

  lemma ConsContents(b: Block, list: seq<Block>)
    requires NoRepeats(list) && b !in list
    ensures NoRepeats([b] + list) && forall c :: c in [b] + list <==> c == b || c in list
  {
    forall x, y | 0 <= x < y < |[b] + list| ensures ([b] + list)[x] != ([b] + list)[y] { assert ([b] + list)[y] == list[y - 1]; }
  }

  /** list_remove */
  function Removed(list: seq<Block>, b: Block): seq<Block> {
    if list == [] then [] else if list[0] == b then list[1..] else [list[0]] + Removed(list[1..], b)
  }

  lemma {:induction false} RemovedContents(list: seq<Block>, b: Block)
    requires NoRepeats(list)
    ensures NoRepeats(Removed(list, b)) && forall c :: c in Removed(list, b) <==> c in list && c != b
  {
    if list != [] {
      TailContents(list);
      RemovedContents(list[1..], b);
      if list[0] != b { ConsContents(list[0], Removed(list[1..], b)); }
    }
  }

  function NewBlocks(p: nat, n: nat): (list: seq<Block>)
    ensures |list| == n
  {
    seq(n, i requires i >= 0 => Block(p, i))
  }

  ghost function BlockSet(p: nat, n: nat): set<Block> { set i: nat | i < n :: Block(p, i) }

  lemma {:induction false} BlockSetSize(p: nat, n: nat)
    ensures |BlockSet(p, n)| == n
  {
    if n > 0 {
      BlockSetSize(p, n - 1);
      assert BlockSet(p, n) == BlockSet(p, n - 1) + {Block(p, n - 1)};
    } else {
      assert BlockSet(p, n) == {};
    }
  }

  lemma NewBlocksContents(p: nat, n: nat)
    ensures NoRepeats(NewBlocks(p, n)) && forall b :: b in NewBlocks(p, n) <==> b.page == p && b.idx < n
    ensures FreeIn(NewBlocks(p, n), p) == BlockSet(p, n) && |BlockSet(p, n)| == n
  {
    var list := NewBlocks(p, n);
    forall b: Block | b.page == p && b.idx < n ensures b in list { assert list[b.idx] == b; }
    BlockSetSize(p, n);
  }

  // ----- malloc: taking the first free block -----

  ghost predicate CanTake(h: Heap, k: nat) {
    && k < DESC_CNT && |h.free| == DESC_CNT && h.free[k] != []
    && OnList(h, k, h.free[k][0]) && h.arenas[h.free[k][0].page].freeCnt >= 1
  }

  ghost function Take(h: Heap, k: nat, size: nat): Heap
    requires CanTake(h, k)
  {
    var b := h.free[k][0];
    Heap(h.used, h.arenas[b.page := h.arenas[b.page].(freeCnt := h.arenas[b.page].freeCnt - 1)],
         h.free[k := h.free[k][1..]], h.live[b := size])
  }

  lemma ListFacts(h: Heap, k: nat, b: Block)
    requires Core(h) && k < DESC_CNT && b in h.free[k]
    ensures |h.free| == DESC_CNT && OnList(h, k, b) && NoRepeats(h.free[k]) && b !in h.live
    ensures h.arenas[b.page].freeCnt == |FreeIn(h.free[k], b.page)| >= 1
  {
    assert OnList(h, k, b);
    assert BlocksOk(h, b.page, h.arenas[b.page]);
    assert Block(b.page, b.idx) == b;
    assert b in FreeIn(h.free[k], b.page);
    assert |FreeIn(h.free[k], b.page)| >= 1 by { if FreeIn(h.free[k], b.page) == {} { assert false; } }
  }

  lemma CanTakeIs(h: Heap, k: nat)
    requires Core(h) && k < DESC_CNT && h.free[k] != []
    ensures CanTake(h, k) && NoRepeats(h.free[k]) && h.free[k][0] !in h.live
  {
    ListFacts(h, k, h.free[k][0]);
  }

  lemma TakeKeepsArena(h: Heap, k: nat, size: nat, p: nat)
    requires CanTake(h, k) && NoRepeats(h.free[k]) && p in h.arenas && BlocksOk(h, p, h.arenas[p])
    ensures BlocksOk(Take(h, k, size), p, Take(h, k, size).arenas[p])
  {
    var h', b := Take(h, k, size), h.free[k][0];
    TailContents(h.free[k]);
    if p == b.page {
      assert FreeIn(h'.free[k], p) == FreeIn(h.free[k], p) - {b};
    } else if h.arenas[p].desc == Some(k) {
      assert FreeIn(h'.free[k], p) == FreeIn(h.free[k], p);
    }
  }

  lemma TakeKeepsArenas(h: Heap, k: nat, size: nat)
    requires CanTake(h, k) && NoRepeats(h.free[k]) && ArenasOk(h)
    ensures ArenasOk(Take(h, k, size))
  {
    hide BlocksOk;
    forall p | p in h.arenas ensures BlocksOk(Take(h, k, size), p, Take(h, k, size).arenas[p]) { TakeKeepsArena(h, k, size, p); }
  }

  /** Only counts of free blocks differ: arenas stay where they are. */
  ghost predicate SameShape(h: Heap, h': Heap) {
    h'.arenas.Keys == h.arenas.Keys && forall p | p in h.arenas ::
      h'.arenas[p].desc == h.arenas[p].desc && (h.arenas[p].desc.None? ==> h'.arenas[p] == h.arenas[p])
  }

  lemma ShapeKeeps(h: Heap, h': Heap)
    requires SameShape(h, h')
    ensures RunsDisjoint(h) ==> RunsDisjoint(h')
    ensures forall b :: InArena(h', b) <==> InArena(h, b)
    ensures forall b | InArena(h, b) :: Usable(h'.arenas[b.page]) == Usable(h.arenas[b.page])
    ensures forall k: nat, b :: OnList(h', k, b) <==> OnList(h, k, b)
  {
  }

  lemma TakeKeepsRest(h: Heap, k: nat, size: nat)
    requires CanTake(h, k) && NoRepeats(h.free[k]) && RunsDisjoint(h) && ListsOk(h) && LiveOk(h) && size <= BlockSize(k)
    ensures var h' := Take(h, k, size); RunsDisjoint(h') && ListsOk(h') && LiveOk(h')
  {
    TailContents(h.free[k]);
    ShapeKeeps(h, Take(h, k, size));
    hide InArena, SameShape;
  }

  /** What malloc does when there is a free block. */
  lemma TakeKeeps(h: Heap, k: nat, size: nat, q: Option<nat>)
    requires Core(h) && k < DESC_CNT && h.free[k] != [] && size <= BlockSize(k) && NoneIdleBut(h, q)
    requires q.Some? ==> h.free[k][0].page == q.value
    requires q.Some? && q.value in h.arenas && h.arenas[q.value].desc == Some(k) ==> h.arenas[q.value].freeCnt <= BlocksPerArena(k)
    ensures CanTake(h, k) && h.free[k][0] !in h.live && Ok(Take(h, k, size))
  {
    hide ArenasOk, RunsDisjoint, ListsOk, LiveOk;
    CanTakeIs(h, k);
    TakeKeepsArenas(h, k, size);
    TakeKeepsRest(h, k, size);
  }

  // ----- malloc: a new arena -----

  ghost function AddArena(h: Heap, k: nat, p: nat): Heap
    requires k < DESC_CNT && |h.free| == DESC_CNT
  {
    h.(used := SetRange(h.used, p, 1, true), arenas := h.arenas[p := Arena(Some(k), BlocksPerArena(k))],
       free := h.free[k := h.free[k] + NewBlocks(p, BlocksPerArena(k))])
  }

  /** A page run that was free belongs to no arena and touches none. */
  lemma FreeRunIsApart(h: Heap, p: nat, cnt: nat)
    requires ArenasOk(h) && AllFree(h.used, p, cnt) && cnt >= 1
    ensures p !in h.arenas && forall q | q in h.arenas :: p + cnt <= q || q + Pages(h.arenas[q]) <= p
  {
    forall q | q in h.arenas ensures p + cnt <= q || q + Pages(h.arenas[q]) <= p {
      assert RunOk(h.used, q, h.arenas[q]);
      assert h.used[q] && !h.used[p];
    }
  }

  lemma NoBlocksThere(h: Heap, p: nat)
    requires ListsOk(h) && LiveOk(h) && p !in h.arenas
    ensures forall b | b in h.live :: b.page != p
    ensures forall k: nat, b | k < DESC_CNT && b in h.free[k] :: b.page != p
  {
    forall k: nat, b | k < DESC_CNT && b in h.free[k] ensures b.page != p { assert OnList(h, k, b); }
  }

  lemma AddKeepsArenas(h: Heap, k: nat, p: nat)
    requires ArenasOk(h) && k < DESC_CNT && h.free[k] == [] && AllFree(h.used, p, 1) && p !in h.arenas
    requires forall b | b in h.live :: b.page != p
    ensures ArenasOk(AddArena(h, k, p))
  {
    var h', n := AddArena(h, k, p), BlocksPerArena(k);
    NewBlocksContents(p, n);
    assert h'.free[k] == NewBlocks(p, n);
    hide BlocksPerArena, NewBlocks;
    forall q | q in h'.arenas ensures RunOk(h'.used, q, h'.arenas[q]) && BlocksOk(h', q, h'.arenas[q]) {
      if q != p {
        assert RunOk(h.used, q, h.arenas[q]) && BlocksOk(h, q, h.arenas[q]);
        AddKeepsArena(h, k, p, q);
      }
    }
  }

  lemma AddKeepsArena(h: Heap, k: nat, p: nat, q: nat)
    requires |h.free| == DESC_CNT && k < DESC_CNT && h.free[k] == [] && q in h.arenas && q != p
    requires RunOk(h.used, q, h.arenas[q]) && BlocksOk(h, q, h.arenas[q])
    ensures RunOk(AddArena(h, k, p).used, q, h.arenas[q]) && BlocksOk(AddArena(h, k, p), q, h.arenas[q])
  {
    var h', n := AddArena(h, k, p), BlocksPerArena(k);
    NewBlocksContents(p, n);
    assert h'.free[k] == NewBlocks(p, n);
    hide BlocksPerArena, NewBlocks;
    if h.arenas[q].desc == Some(k) {
      assert FreeIn(h'.free[k], q) == {} == FreeIn(h.free[k], q);
    }
  }

  lemma AddKeepsLists(h: Heap, k: nat, p: nat)
    requires ListsOk(h) && k < DESC_CNT && h.free[k] == [] && p !in h.arenas
    ensures ListsOk(AddArena(h, k, p))
  {
    var h', n := AddArena(h, k, p), BlocksPerArena(k);
    NewBlocksContents(p, n);
    assert h'.free[k] == NewBlocks(p, n);
    hide BlocksPerArena, NewBlocks;
    forall j: nat, b | j < DESC_CNT && b in h'.free[j] ensures OnList(h', j, b) {
      if j != k { assert OnList(h, j, b); }
    }
  }

  lemma AddKeeps(h: Heap, k: nat, p: nat)
    requires Ok(h) && k < DESC_CNT && h.free[k] == [] && AllFree(h.used, p, 1)
    ensures var h' := AddArena(h, k, p);
            && Core(h') && NoneIdleBut(h', Some(p)) && h'.live == h.live && h'.free[k] != [] && h'.free[k][0] == Block(p, 0)
            && p !in h.arenas && h'.arenas[p] == Arena(Some(k), BlocksPerArena(k))
  {
    assert |h.free| == DESC_CNT;
    hide ArenasOk, ListsOk, RunsDisjoint, LiveOk, NoneIdleBut, BlocksPerArena;
    FreeRunIsApart(h, p, 1);
    NoBlocksThere(h, p);
    AddKeepsArenas(h, k, p);
    AddKeepsLists(h, k, p);
    BlocksFit(k);
    NewArenaKeeps(h, AddArena(h, k, p), p, None);
    assert NewBlocks(p, BlocksPerArena(k))[0] == Block(p, 0);
  }

  /** An arena on pages apart from all others disturbs no other arena and no live block. */
  lemma NewArenaKeeps(h: Heap, h': Heap, p: nat, q: Option<nat>)
    requires p !in h.arenas && p in h'.arenas && h'.arenas == h.arenas[p := h'.arenas[p]] && h'.live == h.live
    requires forall x | x in h.arenas :: p + Pages(h'.arenas[p]) <= x || x + Pages(h.arenas[x]) <= p
    requires RunsDisjoint(h) && LiveOk(h) && NoneIdleBut(h, q)
    ensures RunsDisjoint(h') && LiveOk(h')
    ensures q == None || q == Some(p) ==> NoneIdleBut(h', Some(p))
  {
    forall b | b in h.live ensures InArena(h', b) && h'.arenas[b.page] == h.arenas[b.page] { assert InArena(h, b); }
    hide InArena, Usable;
  }

  // ----- malloc: a big block -----

  ghost function AddBig(h: Heap, p: nat, cnt: nat, size: nat): Heap {
    h.(used := SetRange(h.used, p, cnt, true), arenas := h.arenas[p := Arena(None, cnt)], live := h.live[Block(p, 0) := size])
  }

  /** The number of pages that malloc asks for, with the wrap-around of its additions. */
  function BigPages(size: nat): nat { U32(U32(size + 12) + 4095) / 4096 }

  /** The pages hold the request exactly when adding the header does not wrap around. */
  lemma BigPagesFit(size: nat)
    requires size < B32 && BigPages(size) > 0
    ensures size <= LARGEST <==> size <= 4096 * BigPages(size) - 12
    ensures size <= LARGEST ==> size + 4107 < B32
  {
  }

  /** A request that the arithmetic of malloc makes far too small. */
  lemma BigPagesCanBeTooFew()
    ensures BigPages(0xFFFF_FFFF) == 1 && 4096 * BigPages(0xFFFF_FFFF) - 12 < 0xFFFF_FFFF
  {
  }

  lemma AddBigKeepsArenas(h: Heap, p: nat, cnt: nat, size: nat)
    requires ArenasOk(h) && AllFree(h.used, p, cnt) && cnt >= 1 && p !in h.arenas
    ensures ArenasOk(AddBig(h, p, cnt, size))
  {
    var h' := AddBig(h, p, cnt, size);
    forall q | q in h'.arenas ensures RunOk(h'.used, q, h'.arenas[q]) && BlocksOk(h', q, h'.arenas[q]) {
      if q != p {
        assert RunOk(h.used, q, h.arenas[q]) && BlocksOk(h, q, h.arenas[q]);
      }
    }
  }

  lemma AddBigKeeps(h: Heap, p: nat, cnt: nat, size: nat)
    requires Ok(h) && AllFree(h.used, p, cnt) && cnt >= 1 && size < B32 && cnt == BigPages(size)
    ensures Ok(AddBig(h, p, cnt, size)) && p !in h.arenas && Block(p, 0) !in h.live
  {
    hide ArenasOk, ListsOk, RunsDisjoint, LiveOk, NoneIdleBut;
    var h' := AddBig(h, p, cnt, size);
    FreeRunIsApart(h, p, cnt);
    NoBlocksThere(h, p);
    AddBigKeepsArenas(h, p, cnt, size);
    NewArenaKeeps(h, h'.(live := h.live), p, None);
    BigPagesFit(size);
    hide BigPages;
    AddBigRest(h, p, cnt, size);
  }

  lemma AddBigRest(h: Heap, p: nat, cnt: nat, size: nat)
    requires ListsOk(h) && p !in h.arenas && NoneIdleBut(h, None) && (size <= LARGEST ==> size <= 4096 * cnt - 12)
    requires var h' := AddBig(h, p, cnt, size).(live := h.live); RunsDisjoint(h') && LiveOk(h')
    ensures var h' := AddBig(h, p, cnt, size); RunsDisjoint(h') && ListsOk(h') && LiveOk(h') && NoneIdleBut(h', None)
  {
    var h' := AddBig(h, p, cnt, size);
    var g := h'.(live := h.live);
    forall k: nat, b | k < DESC_CNT && b in h'.free[k] ensures OnList(h', k, b) { assert OnList(h, k, b); }
    forall b | b in h'.live ensures InArena(h', b) && (h'.live[b] <= LARGEST ==> h'.live[b] <= Usable(h'.arenas[b.page])) {
      if b != Block(p, 0) { assert InArena(g, b); }
    }
  }

  // ----- free: returning a block to its list -----

  ghost predicate CanGive(h: Heap, b: Block) {
    InArena(h, b) && h.arenas[b.page].desc.Some? && |h.free| == DESC_CNT
  }

  ghost function Give(h: Heap, b: Block): Heap
    requires CanGive(h, b)
  {
    var a := h.arenas[b.page];
    Heap(h.used, h.arenas[b.page := a.(freeCnt := a.freeCnt + 1)], h.free[a.desc.value := [b] + h.free[a.desc.value]], h.live - {b})
  }

  lemma GiveKeepsArena(h: Heap, b: Block, p: nat)
    requires CanGive(h, b) && NoRepeats(h.free[h.arenas[b.page].desc.value]) && b in h.live
    requires b !in h.free[h.arenas[b.page].desc.value] && p in h.arenas && BlocksOk(h, p, h.arenas[p])
    ensures BlocksOk(Give(h, b), p, Give(h, b).arenas[p])
  {
    var h', k := Give(h, b), h.arenas[b.page].desc.value;
    ConsContents(b, h.free[k]);
    if p == b.page {
      assert FreeIn(h'.free[k], p) == FreeIn(h.free[k], p) + {b};
    } else if h.arenas[p].desc == Some(k) {
      assert FreeIn(h'.free[k], p) == FreeIn(h.free[k], p);
    }
  }

  lemma GiveKeepsArenas(h: Heap, b: Block)
    requires CanGive(h, b) && NoRepeats(h.free[h.arenas[b.page].desc.value]) && b in h.live
    requires b !in h.free[h.arenas[b.page].desc.value] && ArenasOk(h)
    ensures ArenasOk(Give(h, b))
  {
    hide BlocksOk;
    forall p | p in h.arenas ensures BlocksOk(Give(h, b), p, Give(h, b).arenas[p]) { GiveKeepsArena(h, b, p); }
  }

  lemma GiveKeepsRest(h: Heap, b: Block)
    requires CanGive(h, b) && RunsDisjoint(h) && ListsOk(h) && LiveOk(h) && b !in h.free[h.arenas[b.page].desc.value]
    ensures var h' := Give(h, b); RunsDisjoint(h') && ListsOk(h') && LiveOk(h')
  {
    var k := h.arenas[b.page].desc.value;
    ConsContents(b, h.free[k]);
    ShapeKeeps(h, Give(h, b));
    hide InArena, SameShape;
  }

  lemma LiveFacts(h: Heap, b: Block)
    requires Core(h) && b in h.live
    ensures InArena(h, b) && |h.free| == DESC_CNT
    ensures h.arenas[b.page].desc.Some? ==> var k := h.arenas[b.page].desc.value;
              CanGive(h, b) && NoRepeats(h.free[k]) && b !in h.free[k]
  {
    assert BlocksOk(h, b.page, h.arenas[b.page]);
    assert Block(b.page, b.idx) == b;
  }

  lemma GiveKeeps(h: Heap, b: Block)
    requires Ok(h) && b in h.live && InArena(h, b) && h.arenas[b.page].desc.Some?
    ensures CanGive(h, b) && Core(Give(h, b)) && NoneIdleBut(Give(h, b), Some(b.page))
  {
    LiveFacts(h, b);
    hide ArenasOk, ListsOk, RunsDisjoint, LiveOk;
    GiveKeepsArenas(h, b);
    GiveKeepsRest(h, b);
  }

  // ----- free: giving back an arena -----

  ghost predicate Idle(h: Heap, p: nat) {
    p in h.arenas && |h.free| == DESC_CNT && h.arenas[p].desc.Some? && h.arenas[p].desc.value < DESC_CNT
    && h.arenas[p].freeCnt >= BlocksPerArena(h.arenas[p].desc.value)
  }

  /** The free list of the arena's descriptor loses exactly the blocks of the arena. */
  ghost predicate Dropped(h: Heap, h': Heap, p: nat)
    requires Idle(h, p)
  {
    var k := h.arenas[p].desc.value;
    && h'.used == SetRange(h.used, p, 1, false) && h'.arenas == h.arenas - {p} && h'.live == h.live
    && |h'.free| == DESC_CNT && NoRepeats(h'.free[k])
    && (forall b :: b in h'.free[k] <==> b in h.free[k] && b.page != p)
    && forall j | 0 <= j < DESC_CNT && j != k :: h'.free[j] == h.free[j]
  }

  /** When the count reaches the number of blocks, all of them are on the list. */
  lemma IdleIsAllFree(h: Heap, p: nat)
    requires Core(h) && Idle(h, p)
    ensures var k := h.arenas[p].desc.value;
            && h.arenas[p].freeCnt == BlocksPerArena(k) && FreeIn(h.free[k], p) == BlockSet(p, BlocksPerArena(k))
            && forall i: nat | i < BlocksPerArena(k) :: Block(p, i) in h.free[k]
    ensures forall b | b in h.live :: b.page != p
  {
    var k := h.arenas[p].desc.value;
    var n := BlocksPerArena(k);
    assert BlocksOk(h, p, h.arenas[p]);
    BlockSetSize(p, n);
    FreeAreBlocks(h, k, p);
    hide BlocksPerArena;
    SubsetOfSameSize(FreeIn(h.free[k], p), BlockSet(p, n));
    forall i: nat | i < n ensures Block(p, i) in h.free[k] { assert Block(p, i) in BlockSet(p, n); }
    forall b | b in h.live ensures b.page != p { assert InArena(h, b) && Block(b.page, b.idx) == b; }
  }

  lemma FreeAreBlocks(h: Heap, k: nat, p: nat)
    requires ListsOk(h) && k < DESC_CNT && p in h.arenas && h.arenas[p].desc == Some(k)
    ensures FreeIn(h.free[k], p) <= BlockSet(p, BlocksPerArena(k))
  {
    hide BlocksPerArena;
    forall b | b in FreeIn(h.free[k], p) ensures b in BlockSet(p, BlocksPerArena(k)) {
      assert OnList(h, k, b) && Block(b.page, b.idx) == b;
    }
  }

  lemma SubsetOfSameSize(a: set<Block>, b: set<Block>)
    requires a <= b && |a| >= |b|
    ensures a == b
  {
    assert b == a + (b - a);
  }

  lemma DropKeepsArenas(h: Heap, h': Heap, p: nat)
    requires ArenasOk(h) && RunsDisjoint(h) && Idle(h, p) && Dropped(h, h', p)
    ensures ArenasOk(h')
  {
    var k := h.arenas[p].desc.value;
    hide BlocksPerArena;
    forall q | q in h'.arenas ensures RunOk(h'.used, q, h'.arenas[q]) && BlocksOk(h', q, h'.arenas[q]) {
      assert RunOk(h.used, q, h.arenas[q]) && BlocksOk(h, q, h.arenas[q]) && Apart(p, h.arenas[p], q, h.arenas[q]);
      if h.arenas[q].desc == Some(k) { assert FreeIn(h'.free[k], q) == FreeIn(h.free[k], q); }
    }
  }

  lemma DropKeepsRest(h: Heap, h': Heap, p: nat)
    requires RunsDisjoint(h) && ListsOk(h) && LiveOk(h) && NoneIdleBut(h, Some(p)) && Idle(h, p) && Dropped(h, h', p)
    requires forall b | b in h.live :: b.page != p
    ensures RunsDisjoint(h') && ListsOk(h') && LiveOk(h') && NoneIdleBut(h', None)
  {
    hide BlocksPerArena, Usable;
    forall j: nat, b | j < DESC_CNT && b in h'.free[j] ensures OnList(h', j, b) { assert OnList(h, j, b); }
    forall b | b in h'.live ensures InArena(h', b) { assert InArena(h, b); }
  }

  lemma DropKeeps(h: Heap, h': Heap, p: nat)
    requires Core(h) && NoneIdleBut(h, Some(p)) && Idle(h, p) && Dropped(h, h', p)
    ensures Ok(h') && forall b | b in h.live :: b.page != p
  {
    IdleIsAllFree(h, p);
    hide ArenasOk, ListsOk, RunsDisjoint, LiveOk, NoneIdleBut, Idle, Dropped;
    DropKeepsArenas(h, h', p);
    DropKeepsRest(h, h', p);
  }

  lemma NotIdle(h: Heap, p: nat)
    requires Core(h) && NoneIdleBut(h, Some(p)) && !Idle(h, p)
    ensures Ok(h)
  {
    if p in h.arenas { assert BlocksOk(h, p, h.arenas[p]); }
  }

  // ----- free: a big block -----

  ghost function DropBig(h: Heap, b: Block): Heap
    requires b.page in h.arenas
  {
    h.(used := SetRange(h.used, b.page, Pages(h.arenas[b.page]), false), arenas := h.arenas - {b.page}, live := h.live - {b})
  }

  lemma DropBigKeeps(h: Heap, b: Block)
    requires Ok(h) && b in h.live && InArena(h, b) && h.arenas[b.page].desc.None?
    ensures Ok(DropBig(h, b)) && AllMarked(h.used, b.page, h.arenas[b.page].freeCnt) && h.arenas[b.page].freeCnt >= 1
  {
    assert RunOk(h.used, b.page, h.arenas[b.page]);
    hide ArenasOk, ListsOk, RunsDisjoint, LiveOk, NoneIdleBut, BlocksPerArena, Usable;
    DropBigArenas(h, b);
    DropBigRest(h, b);
  }

  lemma DropBigArenas(h: Heap, b: Block)
    requires ArenasOk(h) && RunsDisjoint(h) && ListsOk(h) && b in h.live && InArena(h, b) && h.arenas[b.page].desc.None?
    ensures ArenasOk(DropBig(h, b))
  {
    var h', p := DropBig(h, b), b.page;
    hide BlocksPerArena;
    forall q | q in h'.arenas ensures RunOk(h'.used, q, h'.arenas[q]) && BlocksOk(h', q, h'.arenas[q]) {
      assert RunOk(h.used, q, h.arenas[q]) && BlocksOk(h, q, h.arenas[q]) && Apart(p, h.arenas[p], q, h.arenas[q]);
    }
  }

  lemma DropBigRest(h: Heap, b: Block)
    requires RunsDisjoint(h) && ListsOk(h) && LiveOk(h) && NoneIdleBut(h, None) && b in h.live && InArena(h, b) && h.arenas[b.page].desc.None?
    ensures var h' := DropBig(h, b); RunsDisjoint(h') && ListsOk(h') && LiveOk(h') && NoneIdleBut(h', None)
  {
    var h' := DropBig(h, b);
    hide BlocksPerArena, Usable;
    forall k: nat, c | k < DESC_CNT && c in h'.free[k] ensures OnList(h', k, c) { assert OnList(h, k, c); }
    forall c | c in h'.live ensures InArena(h', c) { assert InArena(h, c) && Block(c.page, c.idx) == c; }
  }

  // ----- what the invariant means -----

  /** A free list holds exactly the blocks of its arenas that are not in use, each once, and
      every arena counts its own. */
  lemma FreeListsAreExact(h: Heap, k: nat)
    requires Ok(h) && k < DESC_CNT
    ensures |h.free| == DESC_CNT && NoRepeats(h.free[k])
    ensures forall b :: b in h.free[k] <==> OnList(h, k, b) && b !in h.live
    ensures forall p | p in h.arenas && h.arenas[p].desc == Some(k) :: h.arenas[p].freeCnt == |FreeIn(h.free[k], p)| < BlocksPerArena(k)
  {
    hide BlocksPerArena;
    forall b ensures b in h.free[k] <==> OnList(h, k, b) && b !in h.live {
      if OnList(h, k, b) { assert BlocksOk(h, b.page, h.arenas[b.page]) && Block(b.page, b.idx) == b; }
      if b in h.free[k] { ListFacts(h, k, b); }
    }
    forall p | p in h.arenas && h.arenas[p].desc == Some(k) ensures h.arenas[p].freeCnt == |FreeIn(h.free[k], p)| < BlocksPerArena(k) {
      assert BlocksOk(h, p, h.arenas[p]);
    }
  }
}
