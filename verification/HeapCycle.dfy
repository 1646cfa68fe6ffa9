/** What kfree undoes of kmalloc: only the page of a new block and the frames of
    new page tables stay behind (kernel/mem/kmalloc.c). */
module HeapCycle {
  import opened Memory
  import opened Pagemap
  import opened PageTables
  import opened FirstFit
  import opened Blocks
  import opened HeapModel
  import opened HeapSteps
  import opened Kmalloc
  import opened FrameAllocator
  import opened Paging

  /** Chunks lie in the area of their block, and no two areas meet. */
  ghost predicate AreasApart(blocks: seq<BlockView>) {
    && (forall i, p :: 0 <= i < |blocks| && p in blocks[i].used ==> InArea(blocks[i], p))
    && (forall i, j, p :: 0 <= i < j < |blocks| ==> !(InArea(blocks[i], p) && InArea(blocks[j], p)))
  }

  /** No big allocation begins in the area of a block. */
  ghost predicate BigsOutside(m: Moment) {
    forall i, j :: 0 <= i < |m.blocks| && 0 <= j < |m.bigs| ==> !InArea(m.blocks[i], m.bigs[j].ptr)
  }

  // --------------------------------------------------------------------------
  // On moments

  /** The blocks once there is a free chunk of that size. */
  ghost predicate GrownBlocks(m: Moment, eltSize: nat, blocks: seq<BlockView>) {
    if NoFreeChunk(m.blocks, eltSize)
    then blocks != [] && blocks[1..] == m.blocks && exists page :: blocks[0] == EmptyBlock(page, eltSize)
    else blocks == m.blocks
  }

  /** A chunk that was just taken, given back in a moment k with the same blocks. */
  lemma ChunkBack(m: Moment, eltSize: nat, size: nat, a: int, n: Moment, k: Moment, o: Moment)
    requires ChunkTaken(m, eltSize, size, a, n) && k.blocks == n.blocks && AreasApart(n.blocks) && ChunkGiven(k, a, o)
    ensures o == k.(blocks := m.blocks, live := k.live - {a})
  {
    hide InArea;
    hide HasRoom;
    hide NoFreeChunk;
    var i: nat :| ChunkTakenAt(m, eltSize, size, a, n, i);
    var j: nat :| ChunkGivenAt(k, a, o, j);
    assert a in n.blocks[i].used && InArea(n.blocks[i], a);
    assert i == j;
    var used := m.blocks[i].used;
    assert used + {a} - {a} == used;
    assert o.blocks == m.blocks;
  }

  lemma HolderOf(m: Moment, eltSize: nat, size: nat, a: int, n: Moment)
    requires ChunkTaken(m, eltSize, size, a, n) && AreasApart(n.blocks)
    ensures exists i :: Holder(n.blocks, a, i)
  {
    hide InArea;
    hide HasRoom;
    hide NoFreeChunk;
    var i: nat :| ChunkTakenAt(m, eltSize, size, a, n, i);
    assert a in n.blocks[i].used && InArea(n.blocks[i], a);
    assert Holder(n.blocks, a, i);
  }

  /** The moment in which the chunk is taken: perhaps after a new block. */
  lemma Taking(m: Moment, eltSize: nat, size: nat, r: Result, n: Moment) returns (from: Moment)
    requires m.Shaped() && ChunkStep(m, eltSize, size, r, n) && r.Ptr?
    ensures ChunkTaken(from, eltSize, size, r.addr, n) && GrownBlocks(m, eltSize, from.blocks)
    ensures from.bigs == m.bigs && from.live == m.live
    ensures NoFreeChunk(m.blocks, eltSize) ==> !NoFreeRun(m.maps, 1) && CanGrow(m) && from == NewBlockAt(m, eltSize)
    ensures !NoFreeChunk(m.blocks, eltSize) ==> from == m
  {
    hide ChunkTaken;
    hide NoFreeChunk;
    hide NoFreeRun;
    from := m;
    if NoFreeChunk(m.blocks, eltSize) {
      from := NewBlockAt(m, eltSize);
      assert from.blocks[1..] == m.blocks && from.blocks[0] == EmptyBlock(PageAt(m, 1), eltSize);
    }
  }

  /** A small request and its release leave nothing but a new block, if one was needed. */
  lemma SmallUndone(m: Moment, size: nat, r: Result, n: Moment, o: Moment)
    requires m.Shaped() && 0 < size <= 2048 && AllocStep(m, size, r, n) && r.Ptr?
    requires AreasApart(n.blocks) && r.addr !in m.live && n.Shaped() && FreeStep(n, r.addr, o)
    ensures !NoFreeChunk(m.blocks, RoundedUp(size)) ==> o == m
    ensures NoFreeChunk(m.blocks, RoundedUp(size)) ==>
      !NoFreeRun(m.maps, 1) && CanGrow(m) && o == NewBlockAt(m, RoundedUp(size))
  {
    RoundedMeans(size);
    PowersUpTo4096();
    hide RoundedUp;
    hide ChunkStep;
    hide ChunkTaken;
    hide ChunkGiven;
    hide NoFreeChunk;
    hide NoFreeRun;
    hide BigGiven;
    hide AreasApart;
    hide Holder;
    var from := Taking(m, RoundedUp(size), size, r, n);
    HolderOf(from, RoundedUp(size), size, r.addr, n);
    ChunkBack(from, RoundedUp(size), size, r.addr, n, n, o);
    LiveBack(from, RoundedUp(size), size, r.addr, n);
  }

  lemma LiveBack(m: Moment, eltSize: nat, size: nat, a: int, n: Moment)
    requires ChunkTaken(m, eltSize, size, a, n)
    ensures n == m.(blocks := n.blocks, live := m.live[a := size])
    ensures a !in m.live ==> n.live - {a} == m.live
  {
    hide FirstRoom;
    hide LowestChunk;
  }

  // The page lies in region r.
  ghost predicate InSpan(m: Moment, r: int, page: int)
    requires m.Shaped()
  {
    0 <= r < |m.maps| && m.firsts[r] <= page < m.firsts[r] + |m.maps[r]|
  }

  /** The page maps are well formed, and no page lies in two regions. */
  ghost predicate SpansApart(m: Moment) {
    && m.Shaped()
    && (forall r :: 0 <= r < |m.maps| ==> WellFormed(m.maps[r]))
    && (forall r, q, page :: InSpan(m, r, page) && InSpan(m, q, page) ==> r == q)
  }

  /** The group at the page has n pages. */
  ghost predicate HasGroup(m: Moment, page: int, n: nat)
    requires m.Shaped()
  {
    forall r :: FirstSpan(m, page, r) ==>
      var i := page - m.firsts[r];
      WellFormed(m.maps[r]) && !m.maps[r][i].Free? && GroupLen(m.maps[r], i) == n
  }

  lemma FreePagesReleased(s: Pages, i: nat)
    requires WellFormed(s) && i < |s| && Starts(s[i])
    ensures FreePages(Release(s, i, GroupLen(s, i))) == FreePages(s) + GroupLen(s, i)
  {
    GroupShape(s, i);
    FreePagesTaken(Release(s, i, GroupLen(s, i)), s, i, GroupLen(s, i));
  }

  lemma FreedPages(m: Moment, page: int, n: nat, now: seq<Pages>)
    requires m.Shaped() && PagesGiven(m, page, now) && HasGroup(m, page, n)
    ensures FreeIn(now) == FreeIn(m.maps) + n
  {
    var r: nat :| PagesGivenAt(m, page, now, r);
    var i := page - m.firsts[r];
    FreePagesReleased(m.maps[r], i);
    FreeInUpdate(m.maps, r, Release(m.maps[r], i, GroupLen(m.maps[r], i)));
  }

  /** A run that was taken last and is given back leaves the page maps as they were. */
  lemma RunBack(m: Moment, n: nat, k: Moment, now: seq<Pages>)
    requires SpansApart(m) && n > 0 && !NoFreeRun(m.maps, n)
    requires k.maps == Take(m.maps, n) && k.firsts == m.firsts && PagesGiven(k, PageAt(m, n), now)
    ensures now == m.maps
  {
    var at, page := First(m.maps, n), PageAt(m, n);
    FirstFitIsRun(m.maps[at.0], n, at.1);
    var r: nat :| PagesGivenAt(k, page, now, r);
    assert InSpan(m, at.0, page) && InSpan(m, r, page);
    GivenBackAgain(m.maps, k.maps, now, r, at.1, n);
  }

  /** A big allocation from the taken run on, and its release. */
  ghost predicate BigCycle(m: Moment, size: nat, asked: nat, a: nat, n: Moment, o: Moment, meta: int, mid: Moment,
                           now: seq<Pages>)
    requires m.Shaped() && n.Shaped()
  {
    var nb := size / PAGE_SIZE;
    && !NoFreeRun(m.maps, nb) && meta >= 0 && a == PageAt(m, nb) * PAGE_SIZE
    && ChunkStep(TakeRun(m, nb), META_SIZE, META_SIZE, Ptr(meta), mid)
    && CanMap(mid, PageRange(PageAt(m, nb), nb)) && n == BigAt(mid, size, asked, PageAt(m, nb), meta) && n.bigs != []
    && PagesGiven(n, PageAt(m, nb), now) && ChunkGiven(Unlinked(n, 0, now), meta, o)
  }

  lemma BigIsCycle(m: Moment, size: nat, asked: nat, a: nat, n: Moment, o: Moment)
    returns (meta: int, mid: Moment, now: seq<Pages>)
    requires m.Shaped() && BigStep(m, size, asked, Ptr(a), n) && BigsOutside(n) && n.Shaped() && FreeStep(n, a, o)
    ensures BigCycle(m, size, asked, a, n, o, meta, mid, now)
  {
    hide BigStep;
    hide FreeStep;
    hide BigsOutside;
    hide NoFreeRun;
    hide ChunkStep;
    hide PagesGiven;
    hide ChunkGiven;
    hide Unlinked;
    hide PageAt;
    hide TakeRun;
    hide CanMap;
    hide BigAt;
    var page;
    meta, mid, page := BigParts(m, size, asked, a, n);
    ReleasedFirst(n, a, o);
    assert PageOf(a) == page;
    now :| PagesGiven(n, PageOf(n.bigs[0].ptr), now) && ChunkGiven(Unlinked(n, 0, now), n.bigs[0].meta, o);
  }

  /** kfree finds the allocation at the front of the list. */
  lemma ReleasedFirst(n: Moment, a: nat, o: Moment)
    requires n.Shaped() && BigsOutside(n) && FreeStep(n, a, o) && n.bigs != [] && n.bigs[0].ptr == a
    ensures BigGiven(n, 0, o)
  {
    hide InArea;
    hide BigGiven;
    forall i ensures !Holder(n.blocks, a, i) {
      assert 0 <= i < |n.blocks| ==> !InArea(n.blocks[i], n.bigs[0].ptr);
    }
    assert !ChunkGiven(n, a, o);
    var j: nat :| FirstBig(n.bigs, a, j) && BigGiven(n, j, o);
    assert j == 0;
  }

  /** What is left once the chunk of the metadata is back. */
  lemma MetaBack(m: Moment, size: nat, asked: nat, a: nat, n: Moment, o: Moment, meta: int, mid: Moment,
                 now: seq<Pages>) returns (from: Moment)
    requires m.Shaped() && n.Shaped() && BigCycle(m, size, asked, a, n, o, meta, mid, now) && AreasApart(n.blocks)
    ensures ChunkTaken(from, META_SIZE, META_SIZE, meta, mid) && GrownBlocks(m, META_SIZE, from.blocks)
    ensures NoFreeChunk(m.blocks, META_SIZE) ==>
      var taken := TakeRun(m, size / PAGE_SIZE);
      !NoFreeRun(taken.maps, 1) && CanGrow(taken) && from == NewBlockAt(taken, META_SIZE)
    ensures !NoFreeChunk(m.blocks, META_SIZE) ==> from == TakeRun(m, size / PAGE_SIZE)
    ensures o == Unlinked(n, 0, now).(blocks := from.blocks, live := o.live)
  {
    hide AreasApart;
    hide ChunkTaken;
    hide ChunkGiven;
    hide ChunkStep;
    hide NoFreeRun;
    hide NoFreeChunk;
    hide PagesGiven;
    hide Take;
    hide CanGrow;
    var taken := TakeRun(m, size / PAGE_SIZE);
    from := Taking(taken, META_SIZE, META_SIZE, Ptr(meta), mid);
    hide NewBlockAt;
    ChunkBack(from, META_SIZE, META_SIZE, meta, mid, Unlinked(n, 0, now), o);
  }

  /** The lists: what was linked is unlinked, and only a new block stays. */
  lemma BigLists(m: Moment, size: nat, asked: nat, a: nat, n: Moment, o: Moment, meta: int, mid: Moment,
                 now: seq<Pages>)
    requires m.Shaped() && n.Shaped() && BigCycle(m, size, asked, a, n, o, meta, mid, now) && AreasApart(n.blocks)
    ensures o.bigs == m.bigs && o.firsts == m.firsts && o.maps == now && GrownBlocks(m, META_SIZE, o.blocks)
  {
    hide AreasApart;
    hide BigCycle;
    var from := MetaBack(m, size, asked, a, n, o, meta, mid, now);
    hide NoFreeChunk;
    LinkedBig(m, size, asked, a, n, o, meta, mid, now, from);
  }

  lemma LinkedBig(m: Moment, size: nat, asked: nat, a: nat, n: Moment, o: Moment, meta: int, mid: Moment,
                  now: seq<Pages>, from: Moment)
    requires m.Shaped() && n.Shaped() && BigCycle(m, size, asked, a, n, o, meta, mid, now)
    ensures n.bigs == [Big(size, a, meta)] + m.bigs && n.firsts == m.firsts && Without(n.bigs, 0) == m.bigs
  {
    hide ChunkGiven;
    hide NoFreeRun;
    hide NoFreeChunk;
    hide PagesGiven;
    hide Take;
    hide ChunkStep;
    var nb := size / PAGE_SIZE;
    StepKeeps(TakeRun(m, nb), META_SIZE, META_SIZE, Ptr(meta), mid);
    assert Without(n.bigs, 0) == m.bigs;
  }

  lemma StepKeeps(m: Moment, eltSize: nat, size: nat, r: Result, n: Moment)
    requires m.Shaped() && ChunkStep(m, eltSize, size, r, n) && r.Ptr?
    ensures n.bigs == m.bigs && n.firsts == m.firsts
  {
    hide NoFreeRun;
    hide NoFreeChunk;
    hide LowestChunk;
    hide FirstRoom;
  }

  /** The pages: all are free again but that of a new block and the frames of new tables. */
  lemma BigCounts(m: Moment, size: nat, asked: nat, a: nat, n: Moment, meta: int, mid: Moment, now: seq<Pages>)
    requires m.Shaped() && n.Shaped() && size > 0
    requires var nb := size / PAGE_SIZE;
      && !NoFreeRun(m.maps, nb) && meta >= 0 && CanMap(mid, PageRange(PageAt(m, nb), nb))
      && ChunkStep(TakeRun(m, nb), META_SIZE, META_SIZE, Ptr(meta), mid)
      && n == BigAt(mid, size, asked, PageAt(m, nb), meta)
      && FreeIn(now) == FreeIn(n.maps) + nb
    ensures m.tables <= n.tables
    ensures FreeIn(now) + (if NoFreeChunk(m.blocks, META_SIZE) then 1 else 0) + |n.tables - m.tables| == FreeIn(m.maps)
  {
    hide ChunkStep;
    hide NoFreeRun;
    hide NoFreeChunk;
    hide SlotsOf;
    hide TakeRun;
    hide CanMap;
    hide BigAt;
    hide PageAt;
    var nb := size / PAGE_SIZE;
    var taken, run := TakeRun(m, nb), PageRange(PageAt(m, nb), nb);
    RunCost(m, nb);
    AfterChunk(taken, META_SIZE, META_SIZE, Ptr(meta), mid);
    MappingCost(mid, size, asked, PageAt(m, nb), meta);
    var more := GrowthPages(taken, META_SIZE);
    SlotsCost(m.tables, more, run);
    SlotsJoin(more, run);
    OnlyNew(m.tables, SlotsOf(more), SlotsOf(run));
  }

  lemma OnlyNew(t: set<int>, a: set<int>, b: set<int>)
    ensures t <= t + a + b && t + a + b - t == a + b - t
  {
  }

  lemma RunCost(m: Moment, n: nat)
    requires m.Shaped() && !NoFreeRun(m.maps, n)
    ensures var taken := TakeRun(m, n);
      taken.Shaped() && taken.blocks == m.blocks && taken.tables == m.tables && FreeIn(taken.maps) + n == FreeIn(m.maps)
  {
    TakeFree(m.maps, n);
  }

  lemma MappingCost(m: Moment, size: nat, asked: nat, page: nat, meta: nat)
    requires CanMap(m, PageRange(page, size / PAGE_SIZE))
    ensures var n, slots := BigAt(m, size, asked, page, meta), SlotsOf(PageRange(page, size / PAGE_SIZE));
      n.tables == m.tables + slots && FreeIn(n.maps) + |slots - m.tables| == FreeIn(m.maps)
  {
    hide SlotsOf;
    TakeEachFree(m.maps, |SlotsOf(PageRange(page, size / PAGE_SIZE)) - m.tables|);
  }

  /** When neither was needed, the page maps are as they were. */
  lemma BigExact(m: Moment, size: nat, asked: nat, a: nat, n: Moment, o: Moment, meta: int, mid: Moment,
                 now: seq<Pages>)
    requires n.Shaped() && SpansApart(m) && size >= PAGE_SIZE && BigCycle(m, size, asked, a, n, o, meta, mid, now)
    requires !NoFreeChunk(m.blocks, META_SIZE) && n.tables == m.tables
    ensures now == m.maps
  {
    hide SpansApart;
    hide NoFreeRun;
    hide NoFreeChunk;
    hide PagesGiven;
    hide ChunkGiven;
    hide Take;
    var nb := size / PAGE_SIZE;
    var taken, run := TakeRun(m, nb), PageRange(PageAt(m, nb), nb);
    var from := Taking(taken, META_SIZE, META_SIZE, Ptr(meta), mid);
    LiveBack(from, META_SIZE, META_SIZE, meta, mid);
    hide ChunkStep;
    hide SlotsOf;
    assert n.tables == mid.tables + SlotsOf(run);
    assert SlotsOf(run) - mid.tables == {};
    assert n.maps == mid.maps == taken.maps;
    RunBack(m, nb, n, now);
  }

  /** A big request and its release: the lists are as before, but for the block of
      the metadata if there was none with room; every page is free again but the
      page of that block and the frames of new page tables.  When there are none
      of these, the page maps are as before. */
  lemma BigUndone(m: Moment, size: nat, asked: nat, a: nat, n: Moment, o: Moment)
    requires m.Shaped() && size >= PAGE_SIZE && BigStep(m, size, asked, Ptr(a), n)
    requires n.Shaped() && FreeStep(n, a, o) && BigsOutside(n) && AreasApart(n.blocks)
    requires HasGroup(n, PageOf(a), size / PAGE_SIZE)
    ensures o.bigs == m.bigs && o.firsts == m.firsts && GrownBlocks(m, META_SIZE, o.blocks) && m.tables <= o.tables
    ensures FreeIn(o.maps) + |o.blocks| - |m.blocks| + |o.tables - m.tables| == FreeIn(m.maps)
    ensures SpansApart(m) && o.blocks == m.blocks && o.tables == m.tables ==> o.maps == m.maps
  {
    hide AreasApart;
    hide HasGroup;
    hide SpansApart;
    var meta, mid, now := BigIsCycle(m, size, asked, a, n, o);
    hide BigStep;
    hide FreeStep;
    hide BigsOutside;
    hide BigCycle;
    BigLists(m, size, asked, a, n, o, meta, mid, now);
    TablesStay(m, size, asked, a, n, o, meta, mid, now);
    CycleCounts(m, size, asked, a, n, o, meta, mid, now);
    hide NoFreeChunk;
    assert |o.blocks| - |m.blocks| == if NoFreeChunk(m.blocks, META_SIZE) then 1 else 0;
    if SpansApart(m) && o.blocks == m.blocks && o.tables == m.tables {
      BigExact(m, size, asked, a, n, o, meta, mid, now);
    }
  }

  lemma CycleCounts(m: Moment, size: nat, asked: nat, a: nat, n: Moment, o: Moment, meta: int, mid: Moment,
                    now: seq<Pages>)
    requires m.Shaped() && n.Shaped() && BigCycle(m, size, asked, a, n, o, meta, mid, now)
    requires size > 0 && HasGroup(n, PageOf(a), size / PAGE_SIZE)
    ensures m.tables <= n.tables
    ensures FreeIn(now) + (if NoFreeChunk(m.blocks, META_SIZE) then 1 else 0) + |n.tables - m.tables| == FreeIn(m.maps)
  {
    hide HasGroup;
    hide ChunkGiven;
    hide PagesGiven;
    hide ChunkStep;
    hide NoFreeRun;
    hide NoFreeChunk;
    hide TakeRun;
    hide CanMap;
    hide BigAt;
    FreedPages(n, PageAt(m, size / PAGE_SIZE), size / PAGE_SIZE, now);
    BigCounts(m, size, asked, a, n, meta, mid, now);
  }

  lemma TablesStay(m: Moment, size: nat, asked: nat, a: nat, n: Moment, o: Moment, meta: int, mid: Moment,
                   now: seq<Pages>)
    requires m.Shaped() && n.Shaped() && BigCycle(m, size, asked, a, n, o, meta, mid, now)
    ensures o.tables == n.tables
  {
    hide Holder;
    hide ChunkStep;
    hide NoFreeRun;
    hide PagesGiven;
  }

  /** What stays of a request and its release: a new block if no block of that
      chunk size had room, and new page tables.  Every other page is free again,
      and when there is neither, nothing has changed. */
  ghost predicate Undone(m: Moment, eltSize: nat, o: Moment) {
    && o.live == m.live && o.bigs == m.bigs && o.firsts == m.firsts
    && GrownBlocks(m, eltSize, o.blocks) && m.tables <= o.tables
    && FreeIn(o.maps) + |o.blocks| - |m.blocks| + |o.tables - m.tables| == FreeIn(m.maps)
    && (o.blocks == m.blocks && o.tables == m.tables ==> o == m)
  }

  lemma SmallIsUndone(m: Moment, size: nat, r: Result, n: Moment, o: Moment)
    requires m.Shaped() && 0 < size <= 2048 && AllocStep(m, size, r, n) && r.Ptr?
    requires AreasApart(n.blocks) && r.addr !in m.live && n.Shaped() && FreeStep(n, r.addr, o)
    ensures Undone(m, RoundedUp(size), o)
  {
    SmallUndone(m, size, r, n, o);
    hide AllocStep;
    hide FreeStep;
    hide AreasApart;
    hide RoundedUp;
    hide NoFreeChunk;
    hide CanGrow;
    hide NewBlockAt;
    hide NoFreeRun;
    hide Undone;
    if NoFreeChunk(m.blocks, RoundedUp(size)) {
      NewBlockStays(m, RoundedUp(size));
    } else {
      NothingStays(m, RoundedUp(size));
    }
  }

  lemma NothingStays(m: Moment, eltSize: nat)
    requires !NoFreeChunk(m.blocks, eltSize)
    ensures Undone(m, eltSize, m)
  {
    hide NoFreeChunk;
    assert m.tables - m.tables == {};
  }

  lemma NewBlockStays(m: Moment, eltSize: nat)
    requires m.Shaped() && NoFreeChunk(m.blocks, eltSize) && !NoFreeRun(m.maps, 1) && CanGrow(m)
    ensures Undone(m, eltSize, NewBlockAt(m, eltSize))
  {
    hide NoFreeChunk;
    hide NoFreeRun;
    hide SlotsOf;
    var page: int := PageAt(m, 1);
    TakeFree(m.maps, 1);
    TakeEachFree(Take(m.maps, 1), |SlotsOf({page}) - m.tables|);
    hide Take;
    hide TakeEach;
    var o := NewBlockAt(m, eltSize);
    assert o.blocks[1..] == m.blocks && o.blocks[0] == EmptyBlock(PageAt(m, 1), eltSize);
    hide EmptyBlock;
    assert o.tables - m.tables == SlotsOf({page}) - m.tables;
  }

  // --------------------------------------------------------------------------
  // On the heap

  lemma AreasOf(s: State)
    requires Layout(s)
    ensures AreasApart(s.blocks)
    ensures forall i, j :: 0 <= i < |s.blocks| && 0 <= j < |s.bigs| ==> !InArea(s.blocks[i], s.bigs[j].ptr)
  {
    forall i, p | 0 <= i < |s.blocks| && InArea(s.blocks[i], p)
      ensures s.blocks[i].page == p / PAGE_SIZE
    {
      assert BlockOk(s, s.blocks[i]);
    }
    forall i, p | 0 <= i < |s.blocks| && p in s.blocks[i].used
      ensures InArea(s.blocks[i], p)
    {
      assert BlockOk(s, s.blocks[i]);
    }
  }

  lemma MapsOf(pfa: Allocator, m: Moment)
    requires pfa.Valid() && m.maps == pfa.Maps() && m.firsts == pfa.Firsts()
    ensures SpansApart(m)
    ensures forall p :: p in pfa.live ==> HasGroup(m, p, pfa.live[p])
  {
    forall r | 0 <= r < |m.maps|
      ensures WellFormed(m.maps[r]) && |m.maps[r]| == pfa.regions[r].nbPages
    {
    }
    forall r, q, page | InSpan(m, r, page) && InSpan(m, q, page)
      ensures r == q
    {
      assert pfa.regions[r].Contains(page) && pfa.regions[q].Contains(page);
    }
    forall p, r | p in pfa.live && FirstSpan(m, p, r)
      ensures !m.maps[r][p - m.firsts[r]].Free? && GroupLen(m.maps[r], p - m.firsts[r]) == pfa.live[p]
    {
      var i :| pfa.StartsAt(pfa.Maps(), i, p);
      assert InSpan(m, r, p) && InSpan(m, i, p);
    }
  }

  lemma HeapFacts(heap: Heap)
    requires heap.Valid()
    ensures heap.mmu.Shape() && AreasApart(heap.Views()) && BigsOutside(heap.Now()) && SpansApart(heap.Now())
    ensures forall j :: 0 <= j < |heap.bigs| ==>
      HasGroup(heap.Now(), PageOf(heap.bigs[j].ptr), PageOf(heap.bigs[j].size))
  {
    hide Inv;
    hide MapsExactly;
    hide Elsewhere;
    hide Uniform;
    hide MappedPages;
    hide Sound;
    hide Allocator.Valid;
    hide Heap.Objects;
    hide Heap.Views;
    hide AreasApart;
    hide SpansApart;
    hide HasGroup;
    hide InArea;
    heap.ValidShape();
    heap.NowParts();
    InvLayout(heap.S());
    AreasOf(heap.S());
    MapsOf(heap.mmu.pfa, heap.Now());
    forall j | 0 <= j < |heap.bigs|
      ensures HasGroup(heap.Now(), PageOf(heap.bigs[j].ptr), PageOf(heap.bigs[j].size))
    {
      BigPages(heap.S(), j);
    }
  }

  lemma LiveIsNotMeta(heap: Heap, p: int)
    requires heap.Valid() && p in heap.live
    ensures forall j :: !IsMeta(heap.S(), j, p)
  {
    hide MapsExactly;
    hide Elsewhere;
    hide Uniform;
    hide MappedPages;
    hide Mmu.Valid;
    hide Heap.Objects;
    hide Inv;
    UniqueOwner(heap.S(), p);
  }

  lemma CycleUndone(m: Moment, size: nat, r: Result, n: Moment, o: Moment)
    requires m.Shaped() && size <= 0x8000_0000 && AllocStep(m, size, r, n) && r.Ptr?
    requires n.Shaped() && FreeStep(n, r.addr, o) && o.live == m.live && r.addr !in m.live
    requires SpansApart(m) && AreasApart(n.blocks) && BigsOutside(n)
    requires forall j :: 0 <= j < |n.bigs| ==> HasGroup(n, PageOf(n.bigs[j].ptr), PageOf(n.bigs[j].size))
    ensures Undone(m, if size <= 2048 then RoundedUp(size) else 16, o)
  {
    hide FreeStep;
    hide SpansApart;
    hide AreasApart;
    hide BigsOutside;
    hide HasGroup;
    hide ChunkStep;
    hide BigStep;
    hide RoundedUp;
    AnswerMeans(m, size, r, n);
    if size <= 2048 {
      SmallIsUndone(m, size, r, n, o);
    } else {
      RoundedMeans(size);
      PowersUpTo4096();
      assert n.bigs[0].ptr == r.addr && n.bigs[0].size == RoundedUp(size);
      BigUndone(m, RoundedUp(size), size, r.addr, n, o);
    }
  }

  /** kmalloc and then kfree of what it gave. */
  method AllocAndFree(heap: Heap, size: nat) returns (r: Result)
    requires heap.Valid() && size <= 0x8000_0000
    modifies heap, heap.Repr, heap.mmu`owned, heap.mmu.ram, heap.mmu.pfa.Repr
    ensures r != Halt ==> heap.Valid() && heap.live == old(heap.live)
    ensures r == Null ==> heap.Now() == old(heap.Now())
    ensures r.Ptr? ==> Undone(old(heap.Now()), if size <= 2048 then RoundedUp(size) else 16, heap.Now())
  {
    hide Heap.Core;
    hide Heap.Valid;
    hide AllocStep;
    hide FreeStep;
    hide Exhausted;
    hide Short;
    hide RoundedUp;
    hide IsMeta;
    hide IsChunk;
    hide KeepsUnused;
    hide Mmu.Slots;
    hide Undone;
    HeapFacts(heap);
    ghost var m := heap.Now();
    r := heap.Kmalloc(size);
    if r.Ptr? {
      HeapFacts(heap);
      ghost var n := heap.Now();
      heap.NowParts();
      LiveIsNotMeta(heap, r.addr);
      var panicked := heap.Kfree(r.addr);
      HeapFacts(heap);
      assert heap.live == old(heap.live);
      CycleUndone(m, size, r, n, heap.Now());
    }
  }
}
