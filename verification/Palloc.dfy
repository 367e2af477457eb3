/**
 The page allocator (threads/palloc.c): two pools of pages, each with a bitmap of the
 pages in use.  Addresses are kernel virtual addresses; the pool locks make each
 bitmap operation atomic and are not modelled.
 */
module Palloc {
  import opened Options
  import opened Bitmap

  const PGSIZE: nat := 4096
  const PHYS_BASE: nat := 0xC000_0000
  const BITMAP_STRUCT: nat := 8

  // ----- Groups of pages, by page number

  /** Groups handed out and not yet freed: first page to page count. */
  type Groups = map<nat, nat>

  ghost predicate Covers(first: nat, cnt: nat, page: nat) {
    first <= page < first + cnt
  }

  ghost predicate GroupsApart(first: nat, cnt: nat, first': nat, cnt': nat) {
    first + cnt <= first' || first' + cnt' <= first
  }

  ghost predicate PairwiseApart(groups: Groups) {
    && (forall f :: f in groups ==> groups[f] > 0)
    && forall f, g :: f in groups && g in groups && f != g ==> GroupsApart(f, groups[f], g, groups[g])
  }

  ghost predicate InUse(groups: Groups, page: nat) {
    exists f :: f in groups && Covers(f, groups[f], page)
  }

  /** Some page of the range is in use. */
  ghost predicate Taken(groups: Groups, first: nat, cnt: nat) {
    exists page: nat :: Covers(first, cnt, page) && InUse(groups, page)
  }

  /** `bits`, for the pages from `first` on, are set exactly for the pages in use. */
  ghost predicate BitsMatch(bits: seq<bool>, first: nat, groups: Groups) {
    forall i :: 0 <= i < |bits| ==> (bits[i] <==> InUse(groups, first + i))
  }

  /** No `cnt` consecutive pages among `pages` many from `first` on are all free. */
  ghost predicate NoRoom(groups: Groups, first: nat, pages: nat, cnt: nat) {
    forall p :: first <= p <= first + pages - cnt ==> Taken(groups, p, cnt)
  }

  lemma FreeBits(bits: seq<bool>, first: nat, groups: Groups, i: nat, cnt: nat)
    requires BitsMatch(bits, first, groups) && i + cnt <= |bits|
    ensures AllAre(bits, i, cnt, false) <==> !Taken(groups, first + i, cnt)
  {
    if AllAre(bits, i, cnt, false) {
      forall page: nat | Covers(first + i, cnt, page) ensures !InUse(groups, page) {
        assert !bits[page - first];
      }
    } else {
      var k :| i <= k < i + cnt && bits[k];
      assert Covers(first + i, cnt, first + k) && InUse(groups, first + k);
    }
  }

  /** A scan for free pages finds nothing exactly when there is no room. */
  lemma ScanFails(bits: seq<bool>, first: nat, groups: Groups, cnt: nat)
    requires BitsMatch(bits, first, groups)
    ensures FirstGroup(bits, 0, cnt, false, None) <==> NoRoom(groups, first, |bits|, cnt)
  {
    if FirstGroup(bits, 0, cnt, false, None) {
      forall p: nat | first <= p <= first + |bits| - cnt ensures Taken(groups, p, cnt) {
        FreeBits(bits, first, groups, p - first, cnt);
      }
    } else {
      var j :| 0 <= j && j + cnt <= |bits| && AllAre(bits, j, cnt, false);
      FreeBits(bits, first, groups, j, cnt);
      assert !Taken(groups, first + j, cnt);
    }
  }

  /** What a scan for free pages means for the groups. */
  lemma ScanMeans(bits: seq<bool>, first: nat, groups: Groups, cnt: nat, found: Option<nat>)
    requires BitsMatch(bits, first, groups) && FirstGroup(bits, 0, cnt, false, found)
    ensures found.None? <==> NoRoom(groups, first, |bits|, cnt)
    ensures found.Some? ==> found.value + cnt <= |bits| && !Taken(groups, first + found.value, cnt)
  {
    ScanFails(bits, first, groups, cnt);
    if found.Some? {
      FreeBits(bits, first, groups, found.value, cnt);
      assert !Taken(groups, first + found.value, cnt);
    }
  }

  /** A free range is apart from every outstanding group. */
  lemma FreeIsApart(groups: Groups, first: nat, cnt: nat)
    requires PairwiseApart(groups) && cnt > 0 && !Taken(groups, first, cnt)
    ensures forall f :: f in groups ==> GroupsApart(f, groups[f], first, cnt)
    ensures first !in groups && PairwiseApart(groups[first := cnt])
  {
    forall f | f in groups ensures GroupsApart(f, groups[f], first, cnt) {
      if !GroupsApart(f, groups[f], first, cnt) {
        var page := if f < first then first else f;
        assert Covers(f, groups[f], page) && Covers(first, cnt, page);
        assert InUse(groups, page);
      }
    }
  }

  lemma InUseAdded(groups: Groups, first: nat, cnt: nat, page: nat)
    requires first !in groups
    ensures InUse(groups[first := cnt], page) <==> InUse(groups, page) || Covers(first, cnt, page)
  {
    var added := groups[first := cnt];
    if InUse(groups, page) {
      var f :| f in groups && Covers(f, groups[f], page);
      assert f in added && Covers(f, added[f], page);
    }
    if Covers(first, cnt, page) {
      assert first in added && Covers(first, added[first], page);
    }
  }

  lemma InUseRemoved(groups: Groups, first: nat, page: nat)
    requires PairwiseApart(groups) && first in groups
    ensures InUse(groups - {first}, page) <==> InUse(groups, page) && !Covers(first, groups[first], page)
  {
    var removed := groups - {first};
    if InUse(groups, page) && !Covers(first, groups[first], page) {
      var f :| f in groups && Covers(f, groups[f], page);
      assert f in removed && Covers(f, removed[f], page);
    }
  }

  /** Setting the bits of a range that lies in the pool, or none for one outside it, keeps the match. */
  lemma MatchAdded(bits: seq<bool>, first: nat, groups: Groups, f: nat, cnt: nat)
    requires BitsMatch(bits, first, groups) && f !in groups
    ensures first <= f && f + cnt <= first + |bits| ==>
      BitsMatch(Filled(bits, f - first, cnt, true), first, groups[f := cnt])
    ensures f + cnt <= first || first + |bits| <= f ==> BitsMatch(bits, first, groups[f := cnt])
  {
    forall i: nat | i < |bits|
      ensures InUse(groups[f := cnt], first + i) <==> bits[i] || Covers(f, cnt, first + i)
    {
      InUseAdded(groups, f, cnt, first + i);
    }
  }

  lemma MatchRemoved(bits: seq<bool>, first: nat, groups: Groups, f: nat)
    requires BitsMatch(bits, first, groups) && PairwiseApart(groups) && f in groups
    ensures first <= f && f + groups[f] <= first + |bits| ==>
      && AllAre(bits, f - first, groups[f], true)
      && BitsMatch(Filled(bits, f - first, groups[f], false), first, groups - {f})
    ensures f + groups[f] <= first || first + |bits| <= f ==> BitsMatch(bits, first, groups - {f})
  {
    forall i: nat | i < |bits|
      ensures InUse(groups - {f}, first + i) <==> bits[i] && !Covers(f, groups[f], first + i)
      ensures Covers(f, groups[f], first + i) ==> bits[i]
    {
      InUseRemoved(groups, f, first + i);
    }
  }

  lemma RemovedApart(groups: Groups, f: nat)
    requires PairwiseApart(groups)
    ensures PairwiseApart(groups - {f})
  {
  }

  // ----- Pools

  /** Pages for the bitmap of `pageCnt` pages. */
  function BitmapPages(pageCnt: nat): (n: nat)
    ensures n >= 1
  {
    (BITMAP_STRUCT + 4 * ElemCnt(pageCnt) + PGSIZE - 1) / PGSIZE
  }

  /** `n` 4096-byte pages are the fewest that hold an 8-byte header and a bit for each of `pageCnt` pages. */
  predicate FewestFor(n: nat, pageCnt: nat) { 8 * (4096 * (n - 1) - 8) < pageCnt <= 8 * (4096 * n - 8) }

  lemma BitmapPagesFewest(pageCnt: nat)
    ensures FewestFor(BitmapPages(pageCnt), pageCnt)
  {
    var words, pages := ElemCnt(pageCnt), BitmapPages(pageCnt);
    assert 32 * (words - 1) < pageCnt <= 32 * words;
    assert 4096 * (pages - 1) < 8 + 4 * words <= 4096 * pages;
    hide *;
    FewestWords(pageCnt, words, pages);
  }

  lemma FewestWords(pageCnt: nat, words: nat, pages: nat)
    requires 32 * (words - 1) < pageCnt <= 32 * words && 4096 * (pages - 1) < 8 + 4 * words <= 4096 * pages
    ensures FewestFor(pages, pageCnt)
  {
    assert words - 1 >= 1024 * (pages - 1) - 2;
  }

  class Pool {
    const usedMap: Bitmap
    const base: nat
    ghost const start: nat // the first page of the pool, which begins with its bitmap

    ghost predicate Valid()
      reads this, usedMap
    {
      usedMap.Valid() && base % PGSIZE == 0 && base > 0
    }

    ghost function FirstPage(): nat { base / PGSIZE }

    ghost function EndPage(): nat
      reads usedMap
    {
      FirstPage() + usedMap.bitCnt
    }

    /** How many pages the pool takes, with its bitmap. */
    ghost function Extent(): int
      reads usedMap
    {
      EndPage() - start
    }

    /** The bitmap takes no more pages than the pool's extent demands. */
    ghost predicate Tight()
      reads usedMap
    {
      start <= FirstPage() <= EndPage() && FewestFor(FirstPage() - start, EndPage() - start)
    }

    /** init_pool over the `pageCnt` pages at `start`: the pool's bitmap takes the first ones.
        The caller has checked that they suffice. */
    constructor (start: nat, pageCnt: nat)
      requires start % PGSIZE == 0 && BitmapPages(pageCnt) <= pageCnt
      ensures Valid() && fresh(usedMap) && fresh(usedMap.bits)
      ensures usedMap.Bits() == seq(usedMap.bitCnt, _ => false)
      ensures this.start == start / PGSIZE && Extent() == pageCnt && Tight()
      ensures Matches(map[]) && EndPage() == start / PGSIZE + pageCnt && EndPage() == FirstPage() + usedMap.bitCnt
    {
      var bmPages := BitmapPages(pageCnt);
      BitmapPagesFewest(pageCnt);
      usedMap := new Bitmap(pageCnt - bmPages);
      base := start + bmPages * PGSIZE;
      this.start := start / PGSIZE;
    }

    method PageFromPool(page: nat) returns (b: bool)
      requires Valid()
      ensures b == (FirstPage() <= page / PGSIZE < FirstPage() + usedMap.bitCnt)
    {
      var pageNo, startPage := page / PGSIZE, base / PGSIZE;
      b := startPage <= pageNo && pageNo < startPage + usedMap.bitCnt;
    }

    /** The bits are set for exactly the pages of outstanding groups. */
    ghost predicate Matches(groups: Groups)
      reads this, usedMap, usedMap.bits
    {
      Valid() && BitsMatch(usedMap.Bits(), FirstPage(), groups)
    }

    /** The end of palloc_free_multiple: the pages' bits are all set, and are cleared. */
    method Release(pages: nat, pageCnt: nat, ghost groups: Groups)
      requires Matches(groups) && PairwiseApart(groups)
      requires pages % PGSIZE == 0 && Holds(pages / PGSIZE, pageCnt)
      requires pages / PGSIZE in groups && groups[pages / PGSIZE] == pageCnt
      modifies usedMap.bits
      ensures Matches(groups - {pages / PGSIZE})
    {
      MatchRemoved(usedMap.Bits(), FirstPage(), groups, pages / PGSIZE);
      var pageIdx := pages / PGSIZE - base / PGSIZE;
      hide BitsMatch, Filled, PairwiseApart;
      assert AllAre(usedMap.Bits(), pageIdx, pageCnt, true);
      usedMap.SetMultiple(pageIdx, pageCnt, false);
    }

    /** Freeing a group of the other pool does not concern this one's bits. */
    lemma Untouched(groups: Groups, f: nat)
      requires Matches(groups) && PairwiseApart(groups) && f in groups
      requires f + groups[f] <= FirstPage() || FirstPage() + usedMap.bitCnt <= f
      ensures Matches(groups - {f})
    {
      MatchRemoved(usedMap.Bits(), FirstPage(), groups, f);
    }

    ghost predicate Holds(first: nat, cnt: nat)
      reads usedMap
    {
      FirstPage() <= first && first + cnt <= FirstPage() + usedMap.bitCnt
    }
  }

  /** Of `pages` pages, `user` are within the limit and do not leave fewer than that to the kernel. */
  predicate Allowed(user: int, limit: nat, pages: int) { 0 <= user <= limit && user <= pages - user }

  ghost predicate MostOf(user: int, limit: nat, pages: int) {
    Allowed(user, limit, pages) && forall more :: Allowed(more, limit, pages) ==> more <= user
  }

  class PageAllocator {
    const kernelPool: Pool
    const userPool: Pool
    ghost var groups: Groups

    ghost predicate Valid()
      reads this, kernelPool, kernelPool.usedMap, kernelPool.usedMap.bits
      reads userPool, userPool.usedMap, userPool.usedMap.bits
    {
      && kernelPool.Matches(groups) && userPool.Matches(groups)
      && kernelPool.usedMap.bits != userPool.usedMap.bits
      && kernelPool.FirstPage() + kernelPool.usedMap.bitCnt <= userPool.FirstPage()
      && PairwiseApart(groups)
      && (forall f :: f in groups ==> kernelPool.Holds(f, groups[f]) || userPool.Holds(f, groups[f]))
    }

    lemma PagesOn(start: nat, pages: nat)
      ensures (start + pages * PGSIZE) / PGSIZE == start / PGSIZE + pages
    {
    }

    /** Half of the pages, or the limit, is the most that is allowed. */
    lemma MostAllowed(pages: nat, limit: nat, user: nat)
      requires user == if pages / 2 > limit then limit else pages / 2
      ensures MostOf(user, limit, pages)
    {
    }

    /** palloc_init for `ramPages` pages of memory, the first 1 MB of it taken. */
    constructor (ramPages: nat, userPageLimit: nat)
      requires ramPages >= 256
      requires var free := ramPages - 256; var user := if free / 2 > userPageLimit then userPageLimit else free / 2;
        BitmapPages(user) <= user && BitmapPages(free - user) <= free - user
      ensures Valid() && groups == map[]
      ensures kernelPool.start == 0xC_0100 && userPool.start == kernelPool.EndPage()
      ensures userPool.EndPage() == 0xC_0000 + ramPages && kernelPool.Tight() && userPool.Tight()
      ensures MostOf(userPool.Extent(), userPageLimit, userPool.Extent() + kernelPool.Extent())
    {
      hide BitmapPages, FewestFor, MostOf;
      var freeStart := PHYS_BASE + 1024 * 1024;
      var freePages := ramPages - 256;
      var userPages := freePages / 2;
      if userPages > userPageLimit {
        userPages := userPageLimit;
      }
      var kernelPages := freePages - userPages;
      kernelPool := new Pool(freeStart, kernelPages);
      userPool := new Pool(freeStart + kernelPages * PGSIZE, userPages);
      groups := map[];
      new;
      PagesOn(freeStart, kernelPages);
      hide Pool.Tight, Pool.EndPage, Pool.FirstPage, Pool.Extent, Pool.Valid, Pool.Matches, BitsMatch;
      MostAllowed(freePages, userPageLimit, userPages);
    }

    /** palloc_get_multiple: the first group of free pages of the chosen pool, or null. */
    method GetMultiple(user: bool, pageCnt: nat) returns (pages: Option<nat>)
      requires Valid()
      modifies this, kernelPool.usedMap.bits, userPool.usedMap.bits
      ensures Valid()
      ensures var pool := if user then userPool else kernelPool;
        && (pages.None? <==> pageCnt == 0 || NoRoom(old(groups), pool.FirstPage(), pool.usedMap.bitCnt, pageCnt))
        && (pages.Some? ==> pages.value % PGSIZE == 0 && pages.value > 0 && pool.Holds(pages.value / PGSIZE, pageCnt))
      ensures pages.Some? ==>
        forall f :: f in old(groups) ==> GroupsApart(f, old(groups)[f], pages.value / PGSIZE, pageCnt)
      ensures pages.Some? ==> pages.value / PGSIZE !in old(groups)
      ensures groups == if pages.None? then old(groups) else old(groups)[pages.value / PGSIZE := pageCnt]
    {
      hide BitsMatch, PairwiseApart, GroupsApart, NoRoom, FirstGroup, Filled, Taken;
      if pageCnt == 0 {
        return None;
      }
      var pool := if user then userPool else kernelPool;
      ghost var bits, first := pool.usedMap.Bits(), pool.FirstPage();
      var pageIdx := pool.usedMap.ScanAndFlip(0, pageCnt, false);
      ScanMeans(bits, first, groups, pageCnt, pageIdx);
      if pageIdx.Some? {
        pages := Some(pool.base + PGSIZE * pageIdx.value);
        ghost var f := first + pageIdx.value;
        assert pages.value / PGSIZE == f;
        FreeIsApart(groups, f, pageCnt);
        MatchAdded(bits, first, groups, f, pageCnt);
        ghost var other := if user then kernelPool else userPool;
        MatchAdded(other.usedMap.Bits(), other.FirstPage(), groups, f, pageCnt);
        groups := groups[f := pageCnt];
      } else {
        pages := None;
      }
    }

    /** palloc_free_multiple of an outstanding group, or of nothing. */
    method FreeMultiple(pages: Option<nat>, pageCnt: nat)
      requires Valid()
      requires pages.Some? && pageCnt > 0 ==>
        pages.value % PGSIZE == 0 && pages.value / PGSIZE in groups && groups[pages.value / PGSIZE] == pageCnt
      modifies this, kernelPool.usedMap.bits, userPool.usedMap.bits
      ensures Valid()
      ensures groups == if pages.None? || pageCnt == 0 then old(groups) else old(groups) - {pages.value / PGSIZE}
    {
      if pages.None? || pageCnt == 0 {
        return;
      }
      hide PairwiseApart, Pool.Matches, GroupsApart;
      ghost var f := pages.value / PGSIZE;
      RemovedApart(groups, f);
      var fromKernel := kernelPool.PageFromPool(pages.value);
      if fromKernel {
        userPool.Untouched(groups, f);
        kernelPool.Release(pages.value, pageCnt, groups);
      } else {
        var fromUser := userPool.PageFromPool(pages.value);
        assert fromUser;  // the source's NOT_REACHED
        kernelPool.Untouched(groups, f);
        userPool.Release(pages.value, pageCnt, groups);
      }
      groups := groups - {f};
    }
  }
}
