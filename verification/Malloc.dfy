/**
 The block allocator (threads/malloc.c) over the page allocator: descriptors with free
 lists, arenas of one page, big blocks of whole pages.  Addresses are kernel virtual
 addresses.  An operation runs under its descriptor's lock and is one step here.
 */
module Malloc {
  import opened Options
  import opened Order
  import opened Bitmap
  import opened Palloc
  import opened Integers

  const ARENA: nat := 12
  const SIZES: seq<nat> := [16, 32, 64, 128, 256, 512, 1024]

  type Size = x: int | 0 <= x < 0x1_0000_0000

  /** `desc` is absent for a big block, whose `freeCnt` counts its pages. */
  datatype Arena = Arena(desc: Option<nat>, freeCnt: nat)

  datatype Desc = Desc(blockSize: nat, blocksPerArena: nat, freeList: seq<nat>)

  const B32: int := 0x1_0000_0000

  /** Pages for a big block, as 32-bit arithmetic computes them. */
  function BigPages(size: Size): nat {
    (size + ARENA + PGSIZE - 1) % B32 / PGSIZE
  }

  /** The largest request whose page count is not cut short by wrap-around. */
  const MAX_SIZE: int := B32 - ARENA

  /** A big block's pages hold the request exactly when it is at most MAX_SIZE, or, just above
      the wrap, when no page at all is asked for. */
  lemma BigPagesHold(size: Size)
    requires size > 0
    ensures BigPages(size) > 0 ==> (size <= BigPages(size) * PGSIZE - ARENA <==> size <= MAX_SIZE)
  {
  }

  /** Then they are the fewest that hold it behind the arena's header. */
  lemma BigPagesFewest(size: Size)
    ensures size <= MAX_SIZE && BigPages(size) > 0 ==>
      4096 * (BigPages(size) - 1) < size + 12 <= 4096 * BigPages(size)
  {
  }

  /** The largest request of all gets one page, and so a block of 4084 bytes. */
  lemma BigPagesWrap()
    ensures BigPages(0xffff_ffff) == 1 && BigPages(0xffff_ffff) * PGSIZE - ARENA == 4084
  {
  }

  /** arena_to_block and the parts of block_to_arena, on addresses; arenas go by page number. */
  function BlockAddr(page: nat, size: nat, idx: nat): nat {
    page * PGSIZE + ARENA + idx * size
  }

  function PageOf(block: nat): nat { block / PGSIZE }

  function IndexOf(block: nat, size: nat): int
    requires size > 0
  {
    (block % PGSIZE - ARENA) / size
  }

  lemma BlockFits(size: nat, idx: nat)
    requires size > 0 && idx < (PGSIZE - ARENA) / size
    ensures 0 <= idx * size && idx * size + size <= PGSIZE - ARENA
    ensures (idx * size) / size == idx && (idx * size) % size == 0
  {
    MulMono(idx + 1, (PGSIZE - ARENA) / size, size);
    MulMono(0, idx, size);
    DivUnique(idx * size, size, idx, 0);
  }

  /** A block lies inside its arena, and its address gives back arena and index. */
  lemma BlockInArena(page: nat, size: nat, idx: nat)
    requires size > 0 && idx < (PGSIZE - ARENA) / size
    ensures var b := BlockAddr(page, size, idx);
      && PageOf(b) == page && b % PGSIZE == ARENA + idx * size && IndexOf(b, size) == idx
      && b + size <= (page + 1) * PGSIZE && b > 0
  {
    BlockFits(size, idx);
    var o := ARENA + idx * size;
    assert 0 <= o < PGSIZE && BlockAddr(page, size, idx) == page * PGSIZE + o;
  }

  function PerArena(d: nat): (n: nat)
    requires d < |SIZES|
    ensures n >= 3
  {
    (PGSIZE - ARENA) / SIZES[d]
  }

  /** An arena's page holds no further block. */
  lemma ArenaFilled(d: nat)
    requires d < |SIZES|
    ensures PerArena(d) * SIZES[d] <= 4096 - 12 < (PerArena(d) + 1) * SIZES[d]
  {
    assert SIZES[d] == 16 || SIZES[d] == 32 || SIZES[d] == 64 || SIZES[d] == 128
      || SIZES[d] == 256 || SIZES[d] == 512 || SIZES[d] == 1024;
  }

  // ----- The state and its invariant

  /** `live` are the blocks handed out and not freed, with the sizes that were asked for. */
  datatype State = State(lists: seq<seq<nat>>, arenas: map<nat, Arena>, live: map<nat, nat>)

  ghost predicate IsBlockOf(b: nat, p: nat, d: nat)
    requires d < |SIZES|
  {
    var i := IndexOf(b, SIZES[d]);
    PageOf(b) == p && 0 <= i < PerArena(d) && b == BlockAddr(p, SIZES[d], i)
  }

  ghost predicate IsBlock(arenas: map<nat, Arena>, d: nat, b: nat)
    requires d < |SIZES|
  {
    var p := PageOf(b);
    p in arenas && arenas[p].desc == Some(d) && IsBlockOf(b, p, d)
  }

  /** Bytes usable at a live block: the block, or the pages behind the arena header. */
  ghost function Room(arenas: map<nat, Arena>, b: nat): int
    requires PageOf(b) in arenas
    requires arenas[PageOf(b)].desc.Some? ==> arenas[PageOf(b)].desc.value < |SIZES|
  {
    match arenas[PageOf(b)].desc
    case Some(d) => SIZES[d]
    case None => arenas[PageOf(b)].freeCnt * PGSIZE - ARENA
  }

  ghost predicate IsBig(arenas: map<nat, Arena>, b: nat) {
    PageOf(b) in arenas && arenas[PageOf(b)].desc == None && b == PageOf(b) * PGSIZE + ARENA
  }

  /** The indexes of an arena's blocks that are on the free list. */
  ghost function FreeOf(list: seq<nat>, p: nat, d: nat): set<nat>
    requires d < |SIZES|
  {
    set i: nat | i < PerArena(d) && BlockAddr(p, SIZES[d], i) in list
  }

  ghost predicate ListsOk(s: State) {
    && |s.lists| == |SIZES|
    && forall d :: 0 <= d < |SIZES| ==>
      && Distinct(s.lists[d])
      && forall b :: b in s.lists[d] ==> IsBlock(s.arenas, d, b)
  }

  /** A block of a small arena is free exactly when it is not live. */
  ghost predicate FreeIffNotLive(s: State)
    requires |s.lists| == |SIZES|
  {
    forall d, b :: 0 <= d < |SIZES| && IsBlock(s.arenas, d, b) ==> (b in s.lists[d] <==> b !in s.live)
  }

  ghost predicate LiveOk(s: State) {
    forall b :: b in s.live ==>
      IsBig(s.arenas, b) || exists d :: 0 <= d < |SIZES| && IsBlock(s.arenas, d, b)
  }

  ghost predicate ArenasOk(s: State)
    requires |s.lists| == |SIZES|
  {
    forall p :: p in s.arenas ==>
      match s.arenas[p].desc
      case Some(d) => d < |SIZES| && s.arenas[p].freeCnt == |FreeOf(s.lists[d], p, d)|
      case None => s.arenas[p].freeCnt > 0 && p * PGSIZE + ARENA in s.live
  }

  ghost predicate Inv(s: State) {
    ListsOk(s) && ArenasOk(s) && FreeIffNotLive(s) && LiveOk(s)
  }

  /** No small arena is entirely free: it would have been given back. */
  ghost predicate NoIdleArena(arenas: map<nat, Arena>) {
    forall p :: p in arenas && arenas[p].desc.Some? && arenas[p].desc.value < |SIZES| ==>
      arenas[p].freeCnt < PerArena(arenas[p].desc.value)
  }

  /** Two live blocks never overlap: each lies in its arena, and blocks of one arena are apart. */
  lemma LiveApart(s: State, groups: Groups, a: nat, b: nat)
    requires Good(s, groups) && PairwiseApart(groups)
    requires a in s.live && b in s.live && a != b
    ensures PageOf(a) in s.arenas && PageOf(b) in s.arenas
    ensures a + Room(s.arenas, a) <= b || b + Room(s.arenas, b) <= a
  {
    var p, q := PageOf(a), PageOf(b);
    LiveInside(s, a);
    LiveInside(s, b);
    if p == q {
      SameArenaApart(s, a, b);
    } else {
      assert Palloc.GroupsApart(p, groups[p], q, groups[q]);
    }
  }

  function PagesOf(a: Arena): nat {
    if a.desc.Some? then 1 else a.freeCnt
  }

  lemma LiveInside(s: State, b: nat)
    requires Inv(s) && b in s.live
    ensures var p := PageOf(b);
      && p in s.arenas
      && p * PGSIZE < b && b + Room(s.arenas, b) <= (p + PagesOf(s.arenas[p])) * PGSIZE
  {
    hide ListsOk, FreeIffNotLive, FreeOf, IndexOf, BlockAddr;
    if !IsBig(s.arenas, b) {
      var d :| 0 <= d < |SIZES| && IsBlock(s.arenas, d, b);
      BlockInArena(PageOf(b), SIZES[d], IndexOf(b, SIZES[d]));
    }
  }

  lemma SameArenaApart(s: State, a: nat, b: nat)
    requires Inv(s) && a in s.live && b in s.live && a != b && PageOf(a) == PageOf(b)
    ensures PageOf(a) in s.arenas
    ensures a + Room(s.arenas, a) <= b || b + Room(s.arenas, b) <= a
  {
    hide IndexOf, BlockAddr;
    var p := PageOf(a);
    if s.arenas[p].desc.Some? {
      var d := s.arenas[p].desc.value;
      assert IsBlock(s.arenas, d, a) && IsBlock(s.arenas, d, b);
      IndexesApart(p, SIZES[d], IndexOf(a, SIZES[d]), IndexOf(b, SIZES[d]));
    }
  }

  lemma IndexesApart(p: nat, size: nat, i: nat, j: nat)
    ensures var a, b := BlockAddr(p, size, i), BlockAddr(p, size, j);
      i == j || a + size <= b || b + size <= a
  {
    if i < j {
      MulMono(i + 1, j, size);
    } else if j < i {
      MulMono(j + 1, i, size);
    }
  }

  // ----- The updates of malloc and free

  function AllBlocks(p: nat, d: nat, n: nat): (r: seq<nat>)
    requires d < |SIZES|
    ensures |r| == n
  {
    seq(n, i requires 0 <= i < n => BlockAddr(p, SIZES[d], i))
  }

  ghost function AddArena(s: State, d: nat, p: nat): State
    requires d < |s.lists| && d < |SIZES|
  {
    State(s.lists[d := s.lists[d] + AllBlocks(p, d, PerArena(d))],
          s.arenas[p := Arena(Some(d), PerArena(d))], s.live)
  }

  ghost function TakeFirst(s: State, d: nat, size: nat): State
    requires d < |s.lists| && s.lists[d] != [] && PageOf(s.lists[d][0]) in s.arenas
    requires s.arenas[PageOf(s.lists[d][0])].freeCnt > 0
  {
    var b := s.lists[d][0];
    var a := s.arenas[PageOf(b)];
    State(s.lists[d := s.lists[d][1..]], s.arenas[PageOf(b) := a.(freeCnt := a.freeCnt - 1)], s.live[b := size])
  }

  ghost function PutBack(s: State, d: nat, b: nat): State
    requires d < |s.lists| && PageOf(b) in s.arenas
  {
    var a := s.arenas[PageOf(b)];
    State(s.lists[d := [b] + s.lists[d]], s.arenas[PageOf(b) := a.(freeCnt := a.freeCnt + 1)], s.live - {b})
  }

  ghost function DropArena(s: State, d: nat, p: nat): State
    requires d < |s.lists|
  {
    State(s.lists[d := Outside(s.lists[d], p)], s.arenas - {p}, s.live)
  }

  /** The list without the blocks of arena p. */
  ghost function Outside(list: seq<nat>, p: nat): seq<nat> {
    if list == [] then []
    else if PageOf(list[0]) == p then Outside(list[1..], p)
    else [list[0]] + Outside(list[1..], p)
  }

  lemma {:induction false} OutsideMembers(list: seq<nat>, p: nat)
    ensures forall b :: b in Outside(list, p) <==> b in list && PageOf(b) != p
    ensures Distinct(list) ==> Distinct(Outside(list, p))
  {
    if list != [] {
      OutsideMembers(list[1..], p);
      assert list == [list[0]] + list[1..];
    }
  }

  /** Blocks of different arenas have different addresses. */
  lemma OtherArena(p: nat, d: nat, i: nat)
    requires d < |SIZES| && i < PerArena(d)
    ensures PageOf(BlockAddr(p, SIZES[d], i)) == p
    ensures IndexOf(BlockAddr(p, SIZES[d], i), SIZES[d]) == i
  {
    BlockInArena(p, SIZES[d], i);
  }

  lemma TakeFirstFree(list: seq<nat>, p: nat, d: nat)
    requires d < |SIZES| && list != [] && Distinct(list)
    ensures PageOf(list[0]) != p ==> FreeOf(list[1..], p, d) == FreeOf(list, p, d)
    ensures var i := IndexOf(list[0], SIZES[d]);
      IsBlockOf(list[0], p, d) ==>
        FreeOf(list, p, d) == FreeOf(list[1..], p, d) + {i} && i !in FreeOf(list[1..], p, d)
  {
    hide IndexOf, BlockAddr;
    assert forall b :: b in list <==> b == list[0] || b in list[1..];
    assert list[0] !in list[1..];
    forall i: nat | i < PerArena(d)
      ensures PageOf(BlockAddr(p, SIZES[d], i)) == p && IndexOf(BlockAddr(p, SIZES[d], i), SIZES[d]) == i
    {
      OtherArena(p, d, i);
    }
  }

  /** The arenas kept their descriptors: the same addresses are blocks. */
  ghost predicate SameDescs(arenas: map<nat, Arena>, arenas': map<nat, Arena>) {
    arenas.Keys == arenas'.Keys && forall p :: p in arenas ==> arenas[p].desc == arenas'[p].desc
  }

  lemma SameBlocks(arenas: map<nat, Arena>, arenas': map<nat, Arena>)
    requires SameDescs(arenas, arenas')
    ensures forall d, b :: 0 <= d < |SIZES| ==> IsBlock(arenas', d, b) == IsBlock(arenas, d, b)
    ensures forall b :: IsBig(arenas', b) == IsBig(arenas, b)
  {
    hide IndexOf, BlockAddr;
  }

  lemma TakeFirstKeeps(s: State, d: nat, size: nat)
    requires Inv(s) && d < |SIZES| && s.lists[d] != []
    ensures var b := s.lists[d][0]; var p := PageOf(b);
      && p in s.arenas && s.arenas[p].freeCnt > 0 && b !in s.live && s.arenas[p].desc == Some(d)
      && Inv(TakeFirst(s, d, size))
  {
    hide IndexOf, BlockAddr, FreeOf, ArenasOk;
    var list := s.lists[d];
    var b := list[0];
    assert IsBlock(s.arenas, d, b);
    TakeFirstArenas(s, d, size);
    var t := TakeFirst(s, d, size);
    SameBlocks(s.arenas, t.arenas);
    hide IsBlock;
    assert forall c :: c in list <==> c == b || c in list[1..];
  }

  lemma TakeFirstArenas(s: State, d: nat, size: nat)
    requires ListsOk(s) && ArenasOk(s) && d < |SIZES| && s.lists[d] != []
    ensures var b := s.lists[d][0]; var p := PageOf(b);
      && p in s.arenas && s.arenas[p].freeCnt > 0 && s.arenas[p].desc == Some(d)
      && SameDescs(s.arenas, TakeFirst(s, d, size).arenas)
      && ArenasOk(TakeFirst(s, d, size))
  {
    hide IndexOf, BlockAddr, FreeOf;
    var b := s.lists[d][0];
    var p := PageOf(b);
    assert IsBlock(s.arenas, d, b);
    TakeFirstFree(s.lists[d], p, d);
    var t := TakeFirst(s, d, size);
    forall q | q in t.arenas
      ensures match t.arenas[q].desc
        case Some(e) => e < |SIZES| && t.arenas[q].freeCnt == |FreeOf(t.lists[e], q, e)|
        case None => t.arenas[q].freeCnt > 0 && q * PGSIZE + ARENA in t.live
    {
      TakeFirstFree(s.lists[d], q, d);
    }
  }

  ghost function Range(n: nat): (r: set<nat>)
    ensures forall i: nat :: i in r <==> i < n
  {
    if n == 0 then {} else Range(n - 1) + {n - 1}
  }

  lemma {:induction false} RangeSize(n: nat)
    ensures |Range(n)| == n
  {
    if n > 0 {
      RangeSize(n - 1);
      assert Range(n) == Range(n - 1) + {n - 1};
    }
  }

  lemma {:induction false} FullRange(s: set<nat>, n: nat)
    requires s <= Range(n)
    ensures |s| <= n && (|s| == n ==> s == Range(n))
  {
    RangeSize(n);
    assert |Range(n) - s| == n - |s|;
  }

  lemma AllBlocksMembers(p: nat, d: nat)
    requires d < |SIZES|
    ensures var r := AllBlocks(p, d, PerArena(d));
      && Distinct(r)
      && (forall b :: b in r ==> IsBlockOf(b, p, d))
      && (forall i :: 0 <= i < PerArena(d) ==> BlockAddr(p, SIZES[d], i) in r)
  {
    hide IndexOf, BlockAddr, PageOf;
    var r := AllBlocks(p, d, PerArena(d));
    forall i: nat | i < PerArena(d)
      ensures r[i] == BlockAddr(p, SIZES[d], i) && PageOf(r[i]) == p && IndexOf(r[i], SIZES[d]) == i
    {
      OtherArena(p, d, i);
    }
  }

  /** A new arena of entirely free blocks, as malloc makes it when the list is empty. */
  lemma AddArenaKeeps(s: State, d: nat, p: nat)
    requires Inv(s) && d < |SIZES| && s.lists[d] == [] && p !in s.arenas
    ensures Inv(AddArena(s, d, p)) && AddArena(s, d, p).lists[d] != []
  {
    var all := AllBlocks(p, d, PerArena(d));
    assert AddArena(s, d, p).lists == s.lists[d := all] by {
      assert s.lists[d] + all == all;
    }
    AllBlocksMembers(p, d);
    LivePages(s);
    AddArenaBlocks(s.arenas, d, p);
    AddArenaArenas(s, d, p);
    hide IndexOf, BlockAddr, FreeOf, ArenasOk, IsBlock, IsBig, PageOf, AllBlocks, IsBlockOf, PerArena;
  }

  /** The new arena's blocks are exactly those carved from it. */
  lemma AddArenaBlocks(arenas: map<nat, Arena>, d: nat, p: nat)
    requires d < |SIZES| && p !in arenas
    ensures var more, all := arenas[p := Arena(Some(d), PerArena(d))], AllBlocks(p, d, PerArena(d));
      && (forall e, b :: 0 <= e < |SIZES| ==> (IsBlock(more, e, b) <==> IsBlock(arenas, e, b) || (e == d && b in all)))
      && (forall b :: b in all ==> PageOf(b) !in arenas)
      && (forall e, b :: 0 <= e < |SIZES| && IsBlock(arenas, e, b) ==> PageOf(b) in arenas)
      && (forall b :: IsBig(more, b) <==> IsBig(arenas, b))
  {
    hide IndexOf, BlockAddr;
    var all := AllBlocks(p, d, PerArena(d));
    AllBlocksMembers(p, d);
    forall b | IsBlockOf(b, p, d) ensures b in all {
      BlockIsListed(b, p, d);
    }
  }

  lemma BlockIsListed(b: nat, p: nat, d: nat)
    requires d < |SIZES| && IsBlockOf(b, p, d)
    ensures b in AllBlocks(p, d, PerArena(d))
  {
    assert AllBlocks(p, d, PerArena(d))[IndexOf(b, SIZES[d])] == b;
  }

  lemma AddArenaArenas(s: State, d: nat, p: nat)
    requires ListsOk(s) && ArenasOk(s) && d < |SIZES| && s.lists[d] == [] && p !in s.arenas
    ensures ArenasOk(AddArena(s, d, p))
  {
    hide IndexOf, BlockAddr, FreeOf;
    var t := AddArena(s, d, p);
    var all := AllBlocks(p, d, PerArena(d));
    assert t.lists[d] == all;
    forall q | q in t.arenas
      ensures match t.arenas[q].desc
        case Some(e) => e < |SIZES| && t.arenas[q].freeCnt == |FreeOf(t.lists[e], q, e)|
        case None => t.arenas[q].freeCnt > 0 && q * PGSIZE + ARENA in t.live
    {
      NewArenaFree(p, d, q);
    }
  }

  lemma NewArenaFree(p: nat, d: nat, q: nat)
    requires d < |SIZES|
    ensures |FreeOf(AllBlocks(p, d, PerArena(d)), q, d)| == if p == q then PerArena(d) else |FreeOf([], q, d)|
  {
    hide IndexOf, BlockAddr;
    var all := AllBlocks(p, d, PerArena(d));
    AllBlocksMembers(p, d);
    if p == q {
      RangeSize(PerArena(d));
      assert FreeOf(all, p, d) == Range(PerArena(d));
    } else {
      forall i: nat | i < PerArena(d) ensures PageOf(BlockAddr(q, SIZES[d], i)) == q {
        OtherArena(q, d, i);
      }
      assert FreeOf(all, q, d) == {} == FreeOf([], q, d);
    }
  }

  /** free's first half: the block joins its free list. */
  lemma PutBackKeeps(s: State, d: nat, b: nat)
    requires Inv(s) && d < |SIZES| && b in s.live && IsBlock(s.arenas, d, b)
    ensures Inv(PutBack(s, d, b))
  {
    hide IndexOf, BlockAddr, FreeOf, ArenasOk;
    var list, t := s.lists[d], PutBack(s, d, b);
    SameBlocks(s.arenas, t.arenas);
    PutBackArenas(s, d, b);
    hide IsBlock;
    assert b !in list;
  }

  lemma PutBackArenas(s: State, d: nat, b: nat)
    requires ListsOk(s) && ArenasOk(s) && FreeIffNotLive(s) && d < |SIZES| && b in s.live && IsBlock(s.arenas, d, b)
    ensures ArenasOk(PutBack(s, d, b))
  {
    hide IndexOf, BlockAddr, FreeOf;
    var list, t := s.lists[d], PutBack(s, d, b);
    var more := t.lists[d];
    assert more == [b] + list && more[1..] == list && b !in list;
    forall q | q in t.arenas
      ensures match t.arenas[q].desc
        case Some(e) => e < |SIZES| && t.arenas[q].freeCnt == |FreeOf(t.lists[e], q, e)|
        case None => t.arenas[q].freeCnt > 0 && q * PGSIZE + ARENA in t.live
    {
      TakeFirstFree(more, q, d);
    }
  }

  /** free's second half: an arena whose blocks are all free leaves with them. */
  lemma DropArenaKeeps(s: State, d: nat, p: nat)
    requires Inv(s) && d < |SIZES| && p in s.arenas && s.arenas[p].desc == Some(d)
    requires s.arenas[p].freeCnt >= PerArena(d)
    ensures s.arenas[p].freeCnt == PerArena(d)
    ensures forall b :: b in s.live ==> PageOf(b) != p
    ensures Inv(DropArena(s, d, p))
  {
    hide IndexOf, BlockAddr, FreeOf, ArenasOk;
    var list, t := s.lists[d], DropArena(s, d, p);
    FullArena(s, d, p);
    forall b | b in s.live ensures PageOf(b) != p {
      assert IsBlockOf(b, p, d) ==> b in list;
    }
    OutsideMembers(list, p);
    DropArenaArenas(s, d, p);
    assert forall e, b :: 0 <= e < |SIZES| && PageOf(b) != p && IsBlock(s.arenas, e, b) ==> IsBlock(t.arenas, e, b);
  }

  lemma FullArena(s: State, d: nat, p: nat)
    requires |s.lists| == |SIZES| && ArenasOk(s) && d < |SIZES| && p in s.arenas && s.arenas[p].desc == Some(d)
    requires s.arenas[p].freeCnt >= PerArena(d)
    ensures s.arenas[p].freeCnt == PerArena(d)
    ensures forall b :: IsBlockOf(b, p, d) ==> b in s.lists[d]
  {
    hide IndexOf, BlockAddr;
    FullRange(FreeOf(s.lists[d], p, d), PerArena(d));
    forall b | IsBlockOf(b, p, d) ensures b in s.lists[d] {
      assert IndexOf(b, SIZES[d]) in Range(PerArena(d));
    }
  }

  lemma DropArenaArenas(s: State, d: nat, p: nat)
    requires |s.lists| == |SIZES| && ArenasOk(s) && d < |SIZES| && p in s.arenas && s.arenas[p].desc == Some(d)
    ensures ArenasOk(DropArena(s, d, p))
  {
    hide IndexOf, BlockAddr;
    var list, t := s.lists[d], DropArena(s, d, p);
    OutsideMembers(list, p);
    forall q | q in t.arenas && t.arenas[q].desc == Some(d)
      ensures FreeOf(t.lists[d], q, d) == FreeOf(list, q, d)
    {
      forall i: nat | i < PerArena(d) ensures PageOf(BlockAddr(q, SIZES[d], i)) == q {
        OtherArena(q, d, i);
      }
    }
  }

  ghost function AddBig(s: State, p: nat, cnt: nat, size: nat): State {
    State(s.lists, s.arenas[p := Arena(None, cnt)], s.live[p * PGSIZE + ARENA := size])
  }

  lemma AddBigKeeps(s: State, p: nat, cnt: nat, size: nat)
    requires Inv(s) && p !in s.arenas && cnt > 0
    ensures Inv(AddBig(s, p, cnt, size)) && p * PGSIZE + ARENA !in s.live
  {
    AddBigBlocks(s.arenas, p, cnt);
    AddBigArenas(s, p, cnt, size);
    hide ArenasOk, IsBlock, IsBig, PageOf;
  }

  lemma AddBigBlocks(arenas: map<nat, Arena>, p: nat, cnt: nat)
    requires p !in arenas
    ensures var more, b := arenas[p := Arena(None, cnt)], p * PGSIZE + ARENA;
      && (forall e, c :: 0 <= e < |SIZES| ==> (IsBlock(more, e, c) <==> IsBlock(arenas, e, c)))
      && (forall e :: 0 <= e < |SIZES| ==> !IsBlock(arenas, e, b))
      && (forall c :: IsBig(more, c) <==> IsBig(arenas, c) || c == b) && !IsBig(arenas, b)
  {
    hide IsBlockOf;
    assert PageOf(p * PGSIZE + ARENA) == p;
  }

  lemma AddBigArenas(s: State, p: nat, cnt: nat, size: nat)
    requires |s.lists| == |SIZES| && ArenasOk(s) && cnt > 0
    ensures ArenasOk(AddBig(s, p, cnt, size))
  {
    hide FreeOf;
  }

  ghost function DropBig(s: State, b: nat): State {
    State(s.lists, s.arenas - {PageOf(b)}, s.live - {b})
  }

  lemma DropBigKeeps(s: State, b: nat)
    requires Inv(s) && b in s.live && IsBig(s.arenas, b)
    ensures Inv(DropBig(s, b))
    ensures forall c :: c in s.live && PageOf(c) == PageOf(b) ==> c == b
  {
    hide ArenasOk, FreeOf, IndexOf, BlockAddr, IsBlockOf;
    var t := DropBig(s, b);
    DropBigArenas(s, b);
    assert forall e, c :: 0 <= e < |SIZES| ==> (IsBlock(t.arenas, e, c) <==> IsBlock(s.arenas, e, c));
    OnlyBig(s, b);
    hide IsBlock;
  }

  lemma OnlyBig(s: State, b: nat)
    requires LiveOk(s) && b in s.live && IsBig(s.arenas, b)
    ensures forall c :: c in s.live && PageOf(c) == PageOf(b) ==> c == b
  {
    hide IndexOf, BlockAddr, IsBlockOf;
  }

  lemma DropBigArenas(s: State, b: nat)
    requires |s.lists| == |SIZES| && ArenasOk(s) && b in s.live && IsBig(s.arenas, b)
    ensures ArenasOk(DropBig(s, b))
  {
    hide FreeOf;
  }

  // ----- The allocator

  /** Every live block has room for what was asked, except where the page count wrapped. */
  ghost predicate RoomOk(s: State) {
    forall b :: b in s.live && s.live[b] <= MAX_SIZE && PageOf(b) in s.arenas ==>
      match s.arenas[PageOf(b)].desc
      case Some(d) => d < |SIZES| && s.live[b] <= SIZES[d]
      case None => s.live[b] <= s.arenas[PageOf(b)].freeCnt * PGSIZE - ARENA
  }

  /** The pages of every arena are an outstanding group of the page allocator. */
  ghost predicate PagesHeld(arenas: map<nat, Arena>, groups: Groups) {
    forall p :: p in arenas ==> p in groups && groups[p] == PagesOf(arenas[p])
  }

  ghost predicate Good(s: State, groups: Groups) {
    Inv(s) && NoIdleArena(s.arenas) && RoomOk(s) && PagesHeld(s.arenas, groups)
  }

  /** The state whose list d has a block to take: an empty one first gets the fresh arena p. */
  ghost function Stocked(s: State, d: nat, p: nat): State
    requires d < |s.lists| && d < |SIZES|
  {
    if s.lists[d] == [] then AddArena(s, d, p) else s
  }

  lemma TakeKeeps(s: State, groups: Groups, d: nat, size: nat, p: nat)
    requires Good(s, groups) && d < |SIZES| && size <= SIZES[d] && (s.lists[d] == [] ==> p !in groups)
    ensures |s.lists| == |SIZES| && (s.lists[d] == [] ==> p !in s.arenas)
    ensures var t := Stocked(s, d, p);
      && t.lists[d] != [] && t.lists[d][0] !in s.live
      && PageOf(t.lists[d][0]) in t.arenas && t.arenas[PageOf(t.lists[d][0])].freeCnt > 0
      && Good(TakeFirst(t, d, size), if s.lists[d] == [] then groups[p := 1] else groups)
  {
    hide IndexOf, BlockAddr, FreeOf, ArenasOk, LiveOk, FreeIffNotLive, IsBlockOf, ListsOk, RoomOk, Stocked;
    StockedFacts(s, groups, d, p);
    var t := Stocked(s, d, p);
    TakeFirstKeeps(t, d, size);
    TakeFirstGood(t, d, size, PageOf(t.lists[d][0]));
  }

  /** Every arena but one that was just added has a block in use. */
  ghost predicate OthersBusy(arenas: map<nat, Arena>, p: nat) {
    forall q :: q in arenas && q != p && arenas[q].desc.Some? && arenas[q].desc.value < |SIZES| ==>
      arenas[q].freeCnt < PerArena(arenas[q].desc.value)
  }

  lemma StockedFacts(s: State, groups: Groups, d: nat, p: nat)
    requires Good(s, groups) && d < |SIZES| && (s.lists[d] == [] ==> p !in groups)
    ensures |s.lists| == |SIZES| && (s.lists[d] == [] ==> p !in s.arenas)
    ensures var t := Stocked(s, d, p);
      && Inv(t) && RoomOk(t) && t.live == s.live && |t.lists| == |SIZES| && t.lists[d] != []
      && OthersBusy(t.arenas, PageOf(t.lists[d][0]))
      && PagesHeld(t.arenas, if s.lists[d] == [] then groups[p := 1] else groups)
  {
    hide IndexOf, BlockAddr, FreeOf, ArenasOk, LiveOk, FreeIffNotLive, IsBlockOf;
    if s.lists[d] == [] {
      AddArenaKeeps(s, d, p);
      AllBlocksFirst(p, d);
      LivePages(s);
    }
  }

  lemma LivePages(s: State)
    requires LiveOk(s)
    ensures forall b :: b in s.live ==> PageOf(b) in s.arenas
  {
  }

  lemma AllBlocksFirst(p: nat, d: nat)
    requires d < |SIZES|
    ensures PageOf(AllBlocks(p, d, PerArena(d))[0]) == p
  {
    OtherArena(p, d, 0);
  }

  /** Taking a block leaves its arena not idle, and room for the request. */
  lemma TakeFirstGood(s: State, d: nat, size: nat, p: nat)
    requires Inv(s) && RoomOk(s) && d < |SIZES| && size <= SIZES[d] && s.lists[d] != []
    requires PageOf(s.lists[d][0]) == p && p in s.arenas && s.arenas[p].desc == Some(d) && s.arenas[p].freeCnt > 0
    requires OthersBusy(s.arenas, p)
    ensures var t := TakeFirst(s, d, size); NoIdleArena(t.arenas) && RoomOk(t)
  {
    FullRange(FreeOf(s.lists[d], p, d), PerArena(d));
    assert s.arenas[p].freeCnt <= PerArena(d);
    hide Inv, PerArena, RoomOk;
    TakeFirstRoom(s, d, size, p);
  }

  lemma TakeFirstRoom(s: State, d: nat, size: nat, p: nat)
    requires RoomOk(s) && d < |s.lists| && d < |SIZES| && size <= SIZES[d] && s.lists[d] != []
    requires PageOf(s.lists[d][0]) == p && p in s.arenas && s.arenas[p].desc == Some(d) && s.arenas[p].freeCnt > 0
    ensures RoomOk(TakeFirst(s, d, size))
  {
  }

  lemma AddBigGood(s: State, groups: Groups, p: nat, cnt: nat, size: Size)
    requires Good(s, groups) && p !in groups && cnt == BigPages(size) > 0 && size > 0
    ensures Good(AddBig(s, p, cnt, size), groups[p := cnt])
    ensures p * PGSIZE + ARENA !in s.live
  {
    hide IndexOf, BlockAddr, FreeOf, ArenasOk, LiveOk, FreeIffNotLive;
    AddBigKeeps(s, p, cnt, size);
    LivePages(s);
    BigPagesHold(size);
    var b := p * PGSIZE + ARENA;
    assert PageOf(b) == p;
  }

  /** free of a small block: back on its list, and the arena given back if that was its last live one. */
  ghost function Freed(s: State, d: nat, b: nat): State
    requires Inv(s) && d < |SIZES| && b in s.live && IsBlock(s.arenas, d, b)
  {
    var t := PutBack(s, d, b);
    if t.arenas[PageOf(b)].freeCnt >= PerArena(d) then DropArena(t, d, PageOf(b)) else t
  }

  lemma FreedKeeps(s: State, groups: Groups, d: nat, b: nat)
    requires Good(s, groups) && d < |SIZES| && b in s.live && IsBlock(s.arenas, d, b)
    ensures var p := PageOf(b); var t := Freed(s, d, b);
      t.live == s.live - {b} && Good(t, if p in t.arenas then groups else groups - {p})
  {
    hide IndexOf, BlockAddr, FreeOf, ArenasOk, LiveOk, FreeIffNotLive;
    PutBackKeeps(s, d, b);
    var t, p := PutBack(s, d, b), PageOf(b);
    if t.arenas[p].freeCnt >= PerArena(d) {
      DropArenaKeeps(t, d, p);
    }
  }

  /** The arena goes back to the page allocator exactly when its last live block is freed. */
  lemma ArenaReturned(s: State, groups: Groups, d: nat, b: nat)
    requires Good(s, groups) && d < |SIZES| && b in s.live && IsBlock(s.arenas, d, b)
    ensures PageOf(b) !in Freed(s, d, b).arenas <==> LastOfPage(s.live, b)
  {
    hide IndexOf, BlockAddr, ArenasOk, FreeOf;
    PutBackKeeps(s, d, b);
    var t, p := PutBack(s, d, b), PageOf(b);
    if t.arenas[p].freeCnt >= PerArena(d) {
      DropArenaKeeps(t, d, p);
    } else {
      SomeLive(t, d, p);
    }
  }

  /** An arena with fewer free blocks than blocks has a live one. */
  lemma SomeLive(s: State, d: nat, p: nat)
    requires Inv(s) && p in s.arenas && s.arenas[p].desc == Some(d) && d < |SIZES| && s.arenas[p].freeCnt < PerArena(d)
    ensures exists c :: c in s.live && PageOf(c) == p
  {
    hide IndexOf, BlockAddr;
    var free := FreeOf(s.lists[d], p, d);
    RangeSize(PerArena(d));
    assert free != Range(PerArena(d));
    var i: nat :| i < PerArena(d) && i !in free;
    OtherArena(p, d, i);
    assert IsBlock(s.arenas, d, BlockAddr(p, SIZES[d], i));
  }

  lemma DropBigGood(s: State, groups: Groups, b: nat)
    requires Good(s, groups) && b in s.live && IsBig(s.arenas, b)
    ensures Good(DropBig(s, b), groups - {PageOf(b)})
  {
    hide IndexOf, BlockAddr, FreeOf, ArenasOk, LiveOk, FreeIffNotLive;
    DropBigKeeps(s, b);
  }

  /** The descriptor for a request, if it is small enough for one. */
  ghost function DescFor(size: nat): nat {
    if size <= 16 then 0 else if size <= 32 then 1 else if size <= 64 then 2 else if size <= 128 then 3
    else if size <= 256 then 4 else if size <= 512 then 5 else if size <= 1024 then 6 else 7
  }

  /** malloc returns null: no bytes asked for, or pages needed from a pool that has no such room. */
  ghost predicate NoMemory(s: State, groups: Groups, poolFirst: nat, poolPages: nat, size: Size)
    requires |s.lists| == |SIZES|
  {
    || size == 0
    || if DescFor(size) == |SIZES| then
         BigPages(size) == 0 || NoRoom(groups, poolFirst, poolPages, BigPages(size))
       else
         s.lists[DescFor(size)] == [] && NoRoom(groups, poolFirst, poolPages, 1)
  }

  /** Unlinking one block. */
  ghost function Unlinked(list: seq<nat>, b: nat): seq<nat> {
    if list == [] then []
    else if list[0] == b then list[1..]
    else [list[0]] + Unlinked(list[1..], b)
  }

  /** The list without the first n blocks of arena p. */
  ghost function OutsideFirst(list: seq<nat>, p: nat, d: nat, n: nat): seq<nat>
    requires d < |SIZES|
  {
    if list == [] then []
    else if PageOf(list[0]) == p && IndexOf(list[0], SIZES[d]) < n then OutsideFirst(list[1..], p, d, n)
    else [list[0]] + OutsideFirst(list[1..], p, d, n)
  }

  /** free's loop takes the arena's blocks off one by one; each is on the list when its turn comes. */
  lemma {:induction false} UnlinkNext(list: seq<nat>, p: nat, d: nat, i: nat)
    requires d < |SIZES| && i < PerArena(d) && Distinct(list)
    requires forall b :: b in list && PageOf(b) == p ==> IsBlockOf(b, p, d)
    ensures Unlinked(OutsideFirst(list, p, d, i), BlockAddr(p, SIZES[d], i)) == OutsideFirst(list, p, d, i + 1)
    ensures BlockAddr(p, SIZES[d], i) in list ==> BlockAddr(p, SIZES[d], i) in OutsideFirst(list, p, d, i)
  {
    hide IndexOf, BlockAddr, PageOf;
    var b := BlockAddr(p, SIZES[d], i);
    OtherArena(p, d, i);
    if list != [] {
      UnlinkNext(list[1..], p, d, i);
      if list[0] == b {
        OutsideFirstSame(list[1..], p, d, i);
      }
    }
  }

  lemma {:induction false} OutsideFirstSame(list: seq<nat>, p: nat, d: nat, i: nat)
    requires d < |SIZES| && i < PerArena(d) && BlockAddr(p, SIZES[d], i) !in list
    requires forall b :: b in list && PageOf(b) == p ==> IsBlockOf(b, p, d)
    ensures OutsideFirst(list, p, d, i) == OutsideFirst(list, p, d, i + 1)
  {
    hide IndexOf, BlockAddr, PageOf;
    if list != [] {
      OutsideFirstSame(list[1..], p, d, i);
    }
  }

  lemma {:induction false} OutsideFirstEnds(list: seq<nat>, p: nat, d: nat)
    requires d < |SIZES|
    requires forall b :: b in list && PageOf(b) == p ==> IsBlockOf(b, p, d)
    ensures OutsideFirst(list, p, d, 0) == list
    ensures OutsideFirst(list, p, d, PerArena(d)) == Outside(list, p)
  {
    hide IndexOf, BlockAddr, PageOf;
    if list != [] {
      OutsideFirstEnds(list[1..], p, d);
    }
  }

  /** The list holds all blocks of the arena `p`, and nothing else of its page. */
  ghost predicate WholePage(list: seq<nat>, p: nat, d: nat)
    requires d < |SIZES|
  {
    && Distinct(list) && (forall b :: b in list && PageOf(b) == p ==> IsBlockOf(b, p, d))
    && forall i :: 0 <= i < PerArena(d) ==> BlockAddr(p, SIZES[d], i) in list
  }

  lemma UnlinkTurn(list: seq<nat>, p: nat, d: nat, i: nat)
    requires d < |SIZES| && i < PerArena(d) && WholePage(list, p, d)
    ensures BlockAddr(p, SIZES[d], i) in OutsideFirst(list, p, d, i)
    ensures Unlinked(OutsideFirst(list, p, d, i), BlockAddr(p, SIZES[d], i)) == OutsideFirst(list, p, d, i + 1)
  {
    hide OutsideFirst, BlockAddr, Unlinked, PageOf, IsBlockOf;
    UnlinkNext(list, p, d, i);
  }

  lemma UnlinkAll(list: seq<nat>, p: nat, d: nat)
    requires d < |SIZES| && WholePage(list, p, d)
    ensures OutsideFirst(list, p, d, 0) == list && OutsideFirst(list, p, d, PerArena(d)) == Outside(list, p)
  {
    OutsideFirstEnds(list, p, d);
  }

  class Allocator {
    var descs: seq<Desc>
    var arenas: map<nat, Arena>
    const palloc: PageAllocator
    ghost var live: map<nat, nat>

    ghost function View(): State
      reads this
    {
      State(seq(|descs|, d requires 0 <= d < |descs| reads this => descs[d].freeList), arenas, live)
    }

    ghost predicate DescsOk()
      reads this
    {
      && |descs| == |SIZES|
      && forall d :: 0 <= d < |descs| ==> descs[d].blockSize == SIZES[d] && descs[d].blocksPerArena == PerArena(d)
    }

    ghost predicate Valid()
      reads this, palloc, palloc.kernelPool, palloc.kernelPool.usedMap, palloc.kernelPool.usedMap.bits
      reads palloc.userPool, palloc.userPool.usedMap, palloc.userPool.usedMap.bits
    {
      && palloc.Valid() && DescsOk()
      && Good(View(), palloc.groups)
    }

    /** malloc_init: descriptors for the powers of two from 16 up to a quarter page. */
    constructor (palloc: PageAllocator)
      requires palloc.Valid()
      ensures Valid() && live == map[] && this.palloc == palloc
    {
      this.palloc := palloc;
      descs, arenas, live := [], map[], map[];
      new;
      var blockSize := 16;
      while blockSize < PGSIZE / 2
        invariant |descs| <= |SIZES|
        invariant blockSize == if |descs| < |SIZES| then SIZES[|descs|] else 2048
        invariant arenas == map[] && live == map[] && palloc.Valid()
        invariant forall d :: 0 <= d < |descs| ==> descs[d] == Desc(SIZES[d], PerArena(d), [])
        decreases 4096 - blockSize
      {
        descs := descs + [Desc(blockSize, (PGSIZE - ARENA) / blockSize, [])];
        blockSize := blockSize * 2;
      }
    }

    /** Obtains a block of at least SIZE bytes, or null. */
    method Malloc(size: Size) returns (block: Option<nat>)
      requires Valid()
      modifies this, palloc, palloc.kernelPool.usedMap.bits, palloc.userPool.usedMap.bits
      ensures Valid()
      ensures block.None? ==> View() == old(View()) && palloc.groups == old(palloc.groups)
      ensures block.Some? ==> block.value !in old(live) && live == old(live)[block.value := size]
      ensures var pool := palloc.kernelPool;
        block.None? <==> NoMemory(old(View()), old(palloc.groups), pool.FirstPage(), pool.usedMap.bitCnt, size)
    {
      hide Good, NoRoom, PageAllocator.Valid, Pool.Holds, Palloc.GroupsApart, BigPages, AllBlocks, BlockAddr;
      if size == 0 {
        return None;
      }
      var d := 0;
      while d < |descs| && descs[d].blockSize < size
        modifies {}
        invariant d <= |descs| && d <= DescFor(size)
        decreases |descs| - d
      {
        d := d + 1;
      }
      assert d == DescFor(size) && (d < |descs| ==> size <= SIZES[d]);
      hide DescFor;
      ghost var s, groups := View(), palloc.groups;
      if d == |descs| {
        var pageCnt := BigPages(size);
        var pages := palloc.GetMultiple(false, pageCnt);
        if pages.None? {
          return None;
        }
        var p := pages.value / PGSIZE;
        AddBigGood(s, groups, p, pageCnt, size);
        arenas := arenas[p := Arena(None, pageCnt)];
        live := live[pages.value + ARENA := size];
        assert View() == AddBig(s, p, pageCnt, size);
        return Some(pages.value + ARENA);
      }
      ghost var newPage := 0;
      if descs[d].freeList == [] {
        var pages := palloc.GetMultiple(false, 1);
        if pages.None? {
          return None;
        }
        var p := pages.value / PGSIZE;
        newPage := p;
        arenas := arenas[p := Arena(Some(d), descs[d].blocksPerArena)];
        FillList(d, p);
        assert s.lists[d] + AllBlocks(p, d, PerArena(d)) == AllBlocks(p, d, PerArena(d));
        assert View().lists == s.lists[d := AllBlocks(p, d, PerArena(d))];
      } else {
        assert View() == s;
      }
      TakeKeeps(s, groups, d, size, newPage);
      assert View() == Stocked(s, d, newPage);
      var b := TakeBlock(d, size);
      return Some(b);
    }

    /** Takes the first block off list d. */
    method TakeBlock(d: nat, size: nat) returns (b: nat)
      requires DescsOk() && d < |descs| && descs[d].freeList != []
      requires PageOf(descs[d].freeList[0]) in arenas && arenas[PageOf(descs[d].freeList[0])].freeCnt > 0
      modifies this
      ensures DescsOk() && b == old(descs)[d].freeList[0]
      ensures View() == TakeFirst(old(View()), d, size)
    {
      ghost var s := View();
      b := descs[d].freeList[0];
      var a := arenas[PageOf(b)];
      descs := descs[d := descs[d].(freeList := descs[d].freeList[1..])];
      arenas := arenas[PageOf(b) := a.(freeCnt := a.freeCnt - 1)];
      live := live[b := size];
      assert View().lists == TakeFirst(s, d, size).lists;
    }

    /** The loop that pushes a new arena's blocks on an empty free list. */
    method FillList(d: nat, p: nat)
      requires DescsOk() && d < |descs| && descs[d].freeList == []
      modifies this`descs
      ensures DescsOk()
      ensures descs == old(descs)[d := old(descs)[d].(freeList := AllBlocks(p, d, PerArena(d)))]
    {
      for i := 0 to descs[d].blocksPerArena
        invariant descs == old(descs)[d := old(descs)[d].(freeList := AllBlocks(p, d, i))]
      {
        var b := BlockAddr(p, descs[d].blockSize, i);
        assert AllBlocks(p, d, i + 1) == AllBlocks(p, d, i) + [b];
        descs := descs[d := descs[d].(freeList := descs[d].freeList + [b])];
      }
    }

    /** Frees a live block, or nothing. */
    method Free(block: Option<nat>)
      requires Valid()
      requires block.Some? ==> block.value in live
      modifies this, palloc, palloc.kernelPool.usedMap.bits, palloc.userPool.usedMap.bits
      ensures Valid()
      ensures block.None? ==> View() == old(View()) && palloc.groups == old(palloc.groups)
      ensures block.Some? ==> live == old(live) - {block.value}
      ensures block.Some? ==> palloc.groups == if LastOfPage(old(live), block.value)
        then old(palloc.groups) - {PageOf(block.value)} else old(palloc.groups)
    {
      if block.None? {
        return;
      }
      hide Good, PageAllocator.Valid, Inv, IsBlock, IsBig, Freed, LastOfPage;
      var b := block.value;
      var p := PageOf(b);
      ghost var s, groups := View(), palloc.groups;
      FreeCases(s, groups, b);
      var a := arenas[p];
      if a.desc.Some? {
        FreedKeeps(s, groups, a.desc.value, b);
        ArenaReturned(s, groups, a.desc.value, b);
        FreeSmall(a.desc.value, b);
      } else {
        FreeBig(b);
      }
    }

    /** A big block: its pages go back. */
    method FreeBig(b: nat)
      requires palloc.Valid() && DescsOk() && Good(View(), palloc.groups)
      requires b in live && IsBig(arenas, b)
      modifies this, palloc, palloc.kernelPool.usedMap.bits, palloc.userPool.usedMap.bits
      ensures palloc.Valid() && DescsOk() && Good(View(), palloc.groups)
      ensures live == old(live) - {b} && LastOfPage(old(live), b)
      ensures palloc.groups == old(palloc.groups) - {PageOf(b)}
    {
      hide Good, PageAllocator.Valid, Inv, LastOfPage, IsBlock, IsBlockOf, IsBig;
      ghost var s, groups := View(), palloc.groups;
      FreeBigCase(s, groups, b);
      var p := PageOf(b);
      var a := arenas[p];
      palloc.FreeMultiple(Some(p * PGSIZE), a.freeCnt);
      arenas := arenas - {p};
      live := live - {b};
      assert View().lists == s.lists;
    }

    /** A normal block: back on its list; if its arena is then unused, the arena goes back. */
    method FreeSmall(d: nat, b: nat)
      requires palloc.Valid() && DescsOk() && d < |descs| && Good(View(), palloc.groups)
      requires b in live && IsBlock(arenas, d, b)
      modifies this, palloc, palloc.kernelPool.usedMap.bits, palloc.userPool.usedMap.bits
      ensures palloc.Valid() && DescsOk()
      ensures View() == Freed(old(View()), d, b)
      ensures palloc.groups == if PageOf(b) in arenas then old(palloc.groups) else old(palloc.groups) - {PageOf(b)}
    {
      hide Good, PageAllocator.Valid, Inv, IsBlock, IsBlockOf, BlockAddr, IndexOf;
      ghost var s, groups := View(), palloc.groups;
      UnlinkReady(s, groups, d, b);
      var p := PageOf(b);
      var a := arenas[p];
      descs := descs[d := descs[d].(freeList := [b] + descs[d].freeList)];
      arenas := arenas[p := a.(freeCnt := a.freeCnt + 1)];
      live := live - {b};
      ghost var t := PutBack(s, d, b);
      assert View().lists == t.lists;
      if arenas[p].freeCnt >= descs[d].blocksPerArena {
        UnlinkArena(d, p);
        palloc.FreeMultiple(Some(p * PGSIZE), 1);
        arenas := arenas - {p};
        assert View().lists == DropArena(t, d, p).lists;
      }
    }

    /** The loop that takes an arena's blocks off the free list. */
    method UnlinkArena(d: nat, p: nat)
      requires DescsOk() && d < |descs| && WholePage(descs[d].freeList, p, d)
      modifies this`descs
      ensures DescsOk()
      ensures descs == old(descs)[d := old(descs)[d].(freeList := Outside(old(descs)[d].freeList, p))]
    {
      hide OutsideFirst, Outside, BlockAddr, Unlinked, WholePage;
      ghost var list := descs[d].freeList;
      UnlinkAll(list, p, d);
      for i := 0 to descs[d].blocksPerArena
        invariant descs == old(descs)[d := old(descs)[d].(freeList := OutsideFirst(list, p, d, i))]
      {
        UnlinkTurn(list, p, d, i);
        TakeOff(d, BlockAddr(p, descs[d].blockSize, i));
      }
    }

    /** list_remove from a descriptor's free list. */
    method TakeOff(d: nat, b: nat)
      requires d < |descs| && b in descs[d].freeList
      modifies this`descs
      ensures descs == old(descs)[d := old(descs)[d].(freeList := Unlinked(old(descs)[d].freeList, b))]
    {
      hide Unlinked;
      var rest := ListRemove(descs[d].freeList, b);
      descs := descs[d := descs[d].(freeList := rest)];
    }

    /** Moves the block to one of NEW_SIZE bytes, if there is memory for it. */
    method Realloc(oldBlock: Option<nat>, newSize: Size) returns (newBlock: Option<nat>)
      requires Valid()
      requires oldBlock.Some? ==> oldBlock.value in live
      modifies this, palloc, palloc.kernelPool.usedMap.bits, palloc.userPool.usedMap.bits
      ensures Valid()
      ensures newSize == 0 ==> newBlock.None? && live == Without(old(live), oldBlock)
      ensures newSize > 0 && newBlock.None? ==> live == old(live)
      ensures newBlock.Some? ==>
        newBlock.value !in old(live) && live == Without(old(live), oldBlock)[newBlock.value := newSize]
    {
      hide Good, PageAllocator.Valid, NoMemory, LastOfPage;
      if newSize == 0 {
        Free(oldBlock);
        return None;
      }
      newBlock := Malloc(newSize);
      if oldBlock.Some? && newBlock.Some? {
        Free(oldBlock);
      }
    }
  }

  ghost function Without(live: map<nat, nat>, block: Option<nat>): map<nat, nat> {
    if block.Some? then live - {block.value} else live
  }

  /** No other live block is in the arena of `b`. */
  ghost predicate LastOfPage(live: map<nat, nat>, b: nat) {
    forall c :: c in live && PageOf(c) == PageOf(b) ==> c == b
  }

  method ListRemove(list: seq<nat>, b: nat) returns (rest: seq<nat>)
    requires b in list
    ensures rest == Unlinked(list, b)
  {
    hide Unlinked;
    var k := 0;
    while list[k] != b
      invariant k < |list| && b in list[k..]
      invariant Unlinked(list, b) == list[..k] + Unlinked(list[k..], b)
      decreases |list| - k
    {
      UnlinkLater(list, b, k);
      k := k + 1;
    }
    UnlinkHere(list, b, k);
    rest := list[..k] + list[k + 1..];
  }

  lemma UnlinkLater(list: seq<nat>, b: nat, k: nat)
    requires k < |list| && b in list[k..] && list[k] != b
    ensures k + 1 < |list| && b in list[k + 1..]
    ensures list[..k] + Unlinked(list[k..], b) == list[..k + 1] + Unlinked(list[k + 1..], b)
  {
    assert list[k..] == [list[k]] + list[k + 1..];
    assert list[k..][1..] == list[k + 1..];
    assert list[..k] + [list[k]] == list[..k + 1];
  }

  lemma UnlinkHere(list: seq<nat>, b: nat, k: nat)
    requires k < |list| && list[k] == b
    ensures Unlinked(list[k..], b) == list[k + 1..]
  {
    assert list[k..][1..] == list[k + 1..];
  }

  /** When the freed block completes its arena, the arena's blocks are all on the list. */
  lemma UnlinkReady(s: State, groups: Groups, d: nat, b: nat)
    requires Good(s, groups) && d < |SIZES| && b in s.live && IsBlock(s.arenas, d, b)
    ensures var t, p := PutBack(s, d, b), PageOf(b);
      && p in s.arenas && Distinct(t.lists[d])
      && (forall c :: c in t.lists[d] && PageOf(c) == p ==> IsBlockOf(c, p, d))
      && (t.arenas[p].freeCnt >= PerArena(d) ==>
            forall i :: 0 <= i < PerArena(d) ==> BlockAddr(p, SIZES[d], i) in t.lists[d])
      && (t.arenas[p].freeCnt >= PerArena(d) ==> p in groups && groups[p] == 1)
  {
    hide IndexOf, BlockAddr, FreeOf;
    PutBackKeeps(s, d, b);
    var t, p := PutBack(s, d, b), PageOf(b);
    if t.arenas[p].freeCnt >= PerArena(d) {
      FullArena(t, d, p);
      forall i: nat | i < PerArena(d) ensures IsBlockOf(BlockAddr(p, SIZES[d], i), p, d) {
        OtherArena(p, d, i);
      }
    }
  }

  lemma FreeBigCase(s: State, groups: Groups, b: nat)
    requires Good(s, groups) && b in s.live && IsBig(s.arenas, b)
    ensures PageOf(b) in s.arenas && PageOf(b) in groups
    ensures groups[PageOf(b)] == s.arenas[PageOf(b)].freeCnt > 0
    ensures LastOfPage(s.live, b) && Good(DropBig(s, b), groups - {PageOf(b)})
  {
    DropBigGood(s, groups, b);
    OnlyLive(s, groups, b);
  }

  lemma OnlyLive(s: State, groups: Groups, b: nat)
    requires Good(s, groups) && b in s.live && IsBig(s.arenas, b)
    ensures LastOfPage(s.live, b)
  {
    DropBigKeeps(s, b);
  }

  /** block_to_arena of a live block: a small arena that the block belongs to, or a big block's. */
  lemma FreeCases(s: State, groups: Groups, b: nat)
    requires Good(s, groups) && b in s.live
    ensures Inv(s)
    ensures PageOf(b) in s.arenas && PageOf(b) in groups && groups[PageOf(b)] == PagesOf(s.arenas[PageOf(b)])
    ensures match s.arenas[PageOf(b)].desc
      case Some(d) => d < |SIZES| == |s.lists| && IsBlock(s.arenas, d, b)
      case None => IsBig(s.arenas, b) && s.arenas[PageOf(b)].freeCnt > 0
  {
    hide IndexOf, BlockAddr, FreeOf, IsBlockOf;
  }
}
