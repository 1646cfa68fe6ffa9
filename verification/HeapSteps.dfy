/** kmalloc and kfree as steps from one moment of the heap to the next: which
    chunk or run is taken, what it costs, and when there is nothing to take
    (kernel/mem/kmalloc.c). */
module HeapSteps {
  import opened Memory
  import opened Pagemap
  import opened PageTables
  import opened FirstFit
  import opened Blocks
  import opened HeapModel
  import opened Rounding
  import opened Powers

  // Halt is the panic of map_page when no frame is left for a page table: the
  // kernel stops.
  datatype Result = Ptr(addr: nat) | Null | Halt

  // Everything that the answer to a request depends on: the blocks and the big
  // allocations in the order of their lists, the sizes asked for, the page map
  // and the first page of each region, and the directory slots with a table.
  datatype Moment = Moment(blocks: seq<BlockView>, bigs: seq<Big>, live: map<int, nat>,
                           maps: seq<Pages>, firsts: seq<nat>, tables: set<int>)
  {
    predicate Shaped() { |maps| == |firsts| }
  }

  // --------------------------------------------------------------------------
  // Pages

  /** The number of the page where a run of n pages is taken. */
  ghost function PageAt(m: Moment, n: nat): nat
    requires m.Shaped() && !NoFreeRun(m.maps, n)
  {
    var at := First(m.maps, n);
    m.firsts[at.0] + at.1
  }

  ghost function TakeRun(m: Moment, n: nat): Moment
    requires !NoFreeRun(m.maps, n)
  {
    m.(maps := Take(m.maps, n))
  }

  ghost predicate CanMap(m: Moment, pages: set<int>) {
    Mappable(m.maps, m.tables, pages)
  }

  /** The pages get mapped; each slot without a table costs a frame. */
  ghost function MapPages(m: Moment, pages: set<int>): Moment
    requires CanMap(m, pages)
  {
    m.(maps := MapsAfter(m.maps, m.tables, pages), tables := m.tables + SlotsOf(pages))
  }

  // --------------------------------------------------------------------------
  // Chunks

  ghost predicate IsFree(b: BlockView, c: int) {
    0 <= c < NbElts(b.eltSize) && b.first + c * b.eltSize !in b.used
  }

  /** Chunk c exists exactly when it fits with its byte in the chunk map. */
  lemma FreeMeans(b: BlockView, c: int)
    ensures IsFree(b, c) <==>
            0 <= c && 28 + (c + 1) * (1 + b.eltSize) <= 4096 && b.first + c * b.eltSize !in b.used
  {
    var n, m := NbElts(b.eltSize), 1 + b.eltSize;
    NbEltsMost(b.eltSize);
    hide NbElts;
    if 0 <= c < n {
      Multiples(c + 1, n, m);
    } else if c >= n {
      Multiples(n + 1, c + 1, m);
    }
  }

  ghost predicate HasRoom(b: BlockView) {
    exists c :: IsFree(b, c)
  }

  /** a is the address of the lowest free chunk. */
  ghost predicate LowestChunk(b: BlockView, a: int) {
    exists c :: LowestAt(b, a, c)
  }

  ghost predicate LowestAt(b: BlockView, a: int, c: int) {
    IsFree(b, c) && a == b.first + c * b.eltSize && forall d :: d < c ==> !IsFree(b, d)
  }

  lemma LowestUnique(b: BlockView, p: int, q: int)
    requires LowestChunk(b, p) && LowestChunk(b, q)
    ensures p == q
  {
    hide IsFree;
    var c :| LowestAt(b, p, c);
    var e :| LowestAt(b, q, e);
    assert !(c < e) && !(e < c);
  }

  /** No block of that chunk size has a free chunk. */
  ghost predicate NoFreeChunk(blocks: seq<BlockView>, eltSize: nat) {
    forall i :: 0 <= i < |blocks| ==> blocks[i].eltSize != eltSize || !HasRoom(blocks[i])
  }

  /** Block i is the first one of that chunk size with a free chunk. */
  ghost predicate FirstRoom(blocks: seq<BlockView>, eltSize: nat, i: int) {
    0 <= i < |blocks| && blocks[i].eltSize == eltSize && HasRoom(blocks[i]) && NoFreeChunk(blocks[..i], eltSize)
  }

  lemma FirstRoomUnique(blocks: seq<BlockView>, eltSize: nat, i: int, j: int)
    requires FirstRoom(blocks, eltSize, i) && FirstRoom(blocks, eltSize, j)
    ensures i == j
  {
    hide HasRoom;
    assert forall k :: 0 <= k < i ==> blocks[..i][k] == blocks[k];
    assert forall k :: 0 <= k < j ==> blocks[..j][k] == blocks[k];
  }

  /** The lowest free chunk of the first block with room goes to a caller. */
  ghost predicate ChunkTaken(m: Moment, eltSize: nat, size: nat, a: int, n: Moment) {
    exists i: nat :: ChunkTakenAt(m, eltSize, size, a, n, i)
  }

  ghost predicate ChunkTakenAt(m: Moment, eltSize: nat, size: nat, a: int, n: Moment, i: nat) {
    && FirstRoom(m.blocks, eltSize, i) && LowestChunk(m.blocks[i], a)
    && n == m.(blocks := m.blocks[i := m.blocks[i].(used := m.blocks[i].used + {a})], live := m.live[a := size])
  }

  lemma ChunkTakenUnique(m: Moment, eltSize: nat, size: nat, a: int, n: Moment, b: int, o: Moment)
    requires ChunkTaken(m, eltSize, size, a, n) && ChunkTaken(m, eltSize, size, b, o)
    ensures a == b && n == o
  {
    hide HasRoom;
    hide NoFreeChunk;
    hide LowestChunk;
    var i: nat :| ChunkTakenAt(m, eltSize, size, a, n, i);
    var j: nat :| ChunkTakenAt(m, eltSize, size, b, o, j);
    FirstRoomUnique(m.blocks, eltSize, i, j);
    LowestUnique(m.blocks[i], a, b);
  }

  /** The first chunk of a new block is the first multiple of 4 behind the map. */
  lemma EmptyBlockCut(page: nat, eltSize: nat)
    ensures var b := EmptyBlock(page, eltSize);
      && b.page == page && b.eltSize == eltSize && b.used == {}
      && exists n: nat :: WellCut(page * PAGE_SIZE, eltSize, n, b.first)
  {
    CutIsBest(page * PAGE_SIZE, eltSize, NbElts(eltSize), EmptyBlock(page, eltSize).first);
  }

  function EmptyBlock(page: nat, eltSize: nat): BlockView {
    BlockView(page, FirstChunk(page * PAGE_SIZE, NbElts(eltSize)), eltSize, {})
  }

  /** There is a page for a new block, and a frame for its page table if need be. */
  ghost predicate CanGrow(m: Moment)
    requires m.Shaped()
  {
    !NoFreeRun(m.maps, 1) && CanMap(TakeRun(m, 1), {PageAt(m, 1)})
  }

  /** A new block on the lowest free page, in front of the others. */
  ghost function NewBlockAt(m: Moment, eltSize: nat): Moment
    requires m.Shaped() && CanGrow(m)
  {
    MapPages(TakeRun(m, 1), {PageAt(m, 1)}).(blocks := [EmptyBlock(PageAt(m, 1), eltSize)] + m.blocks)
  }

  /** A request that is served from a block. */
  ghost predicate ChunkStep(m: Moment, eltSize: nat, size: nat, r: Result, n: Moment)
    requires m.Shaped()
  {
    if !NoFreeChunk(m.blocks, eltSize) then r.Ptr? && ChunkTaken(m, eltSize, size, r.addr, n)
    else if NoFreeRun(m.maps, 1) then r == Null && n == m
    else if !CanGrow(m) then r == Halt
    else r.Ptr? && ChunkTaken(NewBlockAt(m, eltSize), eltSize, size, r.addr, n)
  }

  lemma ChunkStepUnique(m: Moment, eltSize: nat, size: nat, r: Result, n: Moment, q: Result, o: Moment)
    requires m.Shaped() && ChunkStep(m, eltSize, size, r, n) && ChunkStep(m, eltSize, size, q, o)
    ensures r == q && (r != Halt ==> n == o)
  {
    hide ChunkTaken;
    hide NoFreeChunk;
    hide NoFreeRun;
    if !NoFreeChunk(m.blocks, eltSize) {
      ChunkTakenUnique(m, eltSize, size, r.addr, n, q.addr, o);
    } else if !NoFreeRun(m.maps, 1) && CanGrow(m) {
      ChunkTakenUnique(NewBlockAt(m, eltSize), eltSize, size, r.addr, n, q.addr, o);
    }
  }

  // --------------------------------------------------------------------------
  // Big allocations

  /** The run is mapped and handed out, with its metadata in the chunk at meta. */
  ghost function BigAt(m: Moment, size: nat, asked: nat, page: nat, meta: nat): Moment
    requires CanMap(m, PageRange(page, size / PAGE_SIZE))
  {
    MapPages(m, PageRange(page, size / PAGE_SIZE)).(
      bigs := [Big(size, page * PAGE_SIZE, meta)] + m.bigs,
      live := (m.live - {meta})[page * PAGE_SIZE := asked])
  }

  /** The end of big_alloc: mid is the moment after the request for the metadata. */
  ghost predicate BigEnd(m: Moment, size: nat, asked: nat, page: nat, meta: Result, mid: Moment, r: Result, n: Moment) {
    match meta
    case Null => r == Null && n == m
    case Halt => r == Halt
    case Ptr(q) =>
      if CanMap(mid, PageRange(page, size / PAGE_SIZE))
      then r == Ptr(page * PAGE_SIZE) && n == BigAt(mid, size, asked, page, q)
      else r == Halt
  }

  /** big_alloc: the lowest run, a chunk for the metadata, and the mappings. */
  ghost predicate BigStep(m: Moment, size: nat, asked: nat, r: Result, n: Moment)
    requires m.Shaped()
  {
    if NoFreeRun(m.maps, size / PAGE_SIZE) then r == Null && n == m
    else exists meta, mid ::
      && ChunkStep(TakeRun(m, size / PAGE_SIZE), META_SIZE, META_SIZE, meta, mid)
      && BigEnd(m, size, asked, PageAt(m, size / PAGE_SIZE), meta, mid, r, n)
  }

  lemma BigStepUnique(m: Moment, size: nat, asked: nat, r: Result, n: Moment, q: Result, o: Moment)
    requires m.Shaped() && BigStep(m, size, asked, r, n) && BigStep(m, size, asked, q, o)
    ensures r == q && (r != Halt ==> n == o)
  {
    hide ChunkStep;
    hide NoFreeRun;
    hide BigAt;
    if !NoFreeRun(m.maps, size / PAGE_SIZE) {
      var taken, page := TakeRun(m, size / PAGE_SIZE), PageAt(m, size / PAGE_SIZE);
      var meta, mid :|
        ChunkStep(taken, META_SIZE, META_SIZE, meta, mid) && BigEnd(m, size, asked, page, meta, mid, r, n);
      var meta', mid' :|
        ChunkStep(taken, META_SIZE, META_SIZE, meta', mid') && BigEnd(m, size, asked, page, meta', mid', q, o);
      ChunkStepUnique(taken, META_SIZE, META_SIZE, meta, mid, meta', mid');
    }
  }

  // --------------------------------------------------------------------------
  // kmalloc

  /** The chunk size of a request, or the size of its pages. */
  function RoundedUp(size: nat): nat
    requires size <= 0x8000_0000
  {
    NextHighestPowerOfTwo(if size < 8 then 8 else size)
  }

  /** The least power of two from 8 on that the request fits in. */
  lemma RoundedMeans(size: nat)
    requires size <= 0x8000_0000
    ensures IsPower(RoundedUp(size)) && 8 <= RoundedUp(size) && size <= RoundedUp(size)
    ensures forall p: nat :: IsPower(p) && 8 <= p && size <= p ==> RoundedUp(size) <= p
  {
    hide NextHighestPowerOfTwo;
    var asked := if size < 8 then 8 else size;
    var h := RoundsUp(asked);
    hide Pow2;
    forall p: nat | IsPower(p) && asked <= p
      ensures RoundedUp(size) <= p
    {
      var k: nat :| p == Pow2(k);
      assert asked <= Pow2(k);
    }
  }

  ghost predicate IsPower(p: nat) {
    exists k: nat :: p == Pow2(k)
  }

  ghost predicate AllocStep(m: Moment, size: nat, r: Result, n: Moment)
    requires m.Shaped() && size <= 0x8000_0000
  {
    if size == 0 then r == Null && n == m
    else if RoundedUp(size) < PAGE_SIZE then ChunkStep(m, RoundedUp(size), size, r, n)
    else BigStep(m, RoundedUp(size), size, r, n)
  }

  /** What is handed out: up to 2048 bytes a used chunk of the rounded size, beyond
      that whole pages. */
  ghost predicate HandsOut(m: Moment, size: nat, rounded: nat, a: nat, n: Moment) {
    if size <= 2048 then
      && n.bigs == m.bigs && n.live == m.live[a := size]
      && exists i :: 0 <= i < |n.blocks| && n.blocks[i].eltSize == rounded && a in n.blocks[i].used
    else
      exists meta, live: map<int, nat> ::
        n.bigs == [Big(rounded, a, meta)] + m.bigs && a % 4096 == 0 && n.live == live[a := size] && meta !in live
  }

  lemma AnswerMeans(m: Moment, size: nat, r: Result, n: Moment)
    requires m.Shaped() && size <= 0x8000_0000 && AllocStep(m, size, r, n) && r.Ptr?
    ensures size > 0 && HandsOut(m, size, RoundedUp(size), r.addr, n)
  {
    RoundedMeans(size);
    hide RoundedUp;
    PowersUpTo4096();
    if RoundedUp(size) < PAGE_SIZE {
      SmallAnswer(m, RoundedUp(size), size, r, n);
    } else {
      BigAnswer(m, RoundedUp(size), size, r, n);
    }
  }

  lemma SmallAnswer(m: Moment, eltSize: nat, size: nat, r: Result, n: Moment)
    requires m.Shaped() && ChunkStep(m, eltSize, size, r, n) && r.Ptr?
    ensures n.bigs == m.bigs && n.live == m.live[r.addr := size]
    ensures exists i :: 0 <= i < |n.blocks| && n.blocks[i].eltSize == eltSize && r.addr in n.blocks[i].used
  {
    hide NoFreeChunk;
    hide NoFreeRun;
    hide LowestChunk;
    var from := if NoFreeChunk(m.blocks, eltSize) then NewBlockAt(m, eltSize) else m;
    var i: nat :| ChunkTakenAt(from, eltSize, size, r.addr, n, i);
    assert r.addr in n.blocks[i].used;
  }

  /** A big allocation that succeeds: its metadata and the moment that has them. */
  lemma BigParts(m: Moment, size: nat, asked: nat, a: nat, n: Moment) returns (meta: nat, mid: Moment, page: nat)
    requires m.Shaped() && BigStep(m, size, asked, Ptr(a), n)
    ensures !NoFreeRun(m.maps, size / PAGE_SIZE) && page == PageAt(m, size / PAGE_SIZE)
    ensures ChunkStep(TakeRun(m, size / PAGE_SIZE), META_SIZE, META_SIZE, Ptr(meta), mid)
    ensures CanMap(mid, PageRange(page, size / PAGE_SIZE))
    ensures a == page * PAGE_SIZE && n == BigAt(mid, size, asked, page, meta) && LinkedAt(mid, size, asked, a, meta, n)
  {
    hide NoFreeRun;
    hide ChunkStep;
    hide PageAt;
    hide CanMap;
    hide BigAt;
    hide LinkedAt;
    page := PageAt(m, size / PAGE_SIZE);
    var q: Result;
    q, mid :| ChunkStep(TakeRun(m, size / PAGE_SIZE), META_SIZE, META_SIZE, q, mid)
              && BigEnd(m, size, asked, page, q, mid, Ptr(a), n);
    meta := q.addr;
    LinkedAtFront(mid, size, asked, page, meta);
  }

  ghost predicate LinkedAt(m: Moment, size: nat, asked: nat, a: nat, meta: nat, n: Moment) {
    && n.bigs == [Big(size, a, meta)] + m.bigs && n.firsts == m.firsts && n.blocks == m.blocks
    && n.live == (m.live - {meta})[a := asked] && a % 4096 == 0
  }

  lemma LinkedAtFront(m: Moment, size: nat, asked: nat, page: nat, meta: nat)
    requires CanMap(m, PageRange(page, size / PAGE_SIZE))
    ensures LinkedAt(m, size, asked, page * PAGE_SIZE, meta, BigAt(m, size, asked, page, meta))
  {
    hide MapsAfter;
    hide SlotsOf;
  }

  lemma BigAnswer(m: Moment, size: nat, asked: nat, r: Result, n: Moment)
    requires m.Shaped() && BigStep(m, size, asked, r, n) && r.Ptr?
    ensures exists meta, live: map<int, nat> ::
      n.bigs == [Big(size, r.addr, meta)] + m.bigs && r.addr % 4096 == 0 && n.live == live[r.addr := asked] &&
      meta !in live
  {
    hide BigStep;
    hide NoFreeRun;
    hide TakeRun;
    hide PageAt;
    hide CanMap;
    hide ChunkStep;
    hide BigAt;
    var meta, mid, page := BigParts(m, size, asked, r.addr, n);
    TakenBigs(m, size / PAGE_SIZE);
    SmallAnswer(TakeRun(m, size / PAGE_SIZE), META_SIZE, META_SIZE, Ptr(meta), mid);
    var live := mid.live - {meta};
    assert meta !in live;
  }

  lemma TakenBigs(m: Moment, n: nat)
    requires !NoFreeRun(m.maps, n)
    ensures TakeRun(m, n).bigs == m.bigs && TakeRun(m, n).Shaped() == m.Shaped()
  {
    hide NoFreeRun;
  }

  lemma PowersUpTo4096()
    ensures IsPower(2048) && IsPower(4096) && forall p: nat :: IsPower(p) && p > 2048 ==> p >= 4096
  {
    SmallConstants();
    PowerSum(8, 3);
    PowerSum(8, 4);
    assert Pow2(11) == 2048 && Pow2(12) == 4096;
    forall p: nat | IsPower(p) && p > 2048
      ensures p >= 4096
    {
      var k: nat :| p == Pow2(k);
      hide Pow2;
      if k <= 11 { PowerAtMost(k, 11); } else { PowerAtMost(12, k); }
    }
  }

  /** There is no memory for a request of that size. */
  ghost predicate Exhausted(m: Moment, size: nat)
    requires size <= 0x8000_0000
  {
    if size == 0 then true
    else if RoundedUp(size) < PAGE_SIZE then NoFreeChunk(m.blocks, RoundedUp(size)) && NoFreeRun(m.maps, 1)
    else NoPages(m, RoundedUp(size) / PAGE_SIZE)
  }

  /** No run of that many pages is free, or after taking it there is no memory
      for the sixteen bytes of metadata of the allocation. */
  ghost predicate NoPages(m: Moment, nbPages: nat) {
    || NoFreeRun(m.maps, nbPages)
    || (NoFreeChunk(m.blocks, 16) && NoFreeRun(Take(m.maps, nbPages), 1))
  }

  /** The page that a chunk of that size costs, if no block has room. */
  ghost function GrowthPages(m: Moment, eltSize: nat): set<int>
    requires m.Shaped() && (NoFreeChunk(m.blocks, eltSize) ==> !NoFreeRun(m.maps, 1))
  {
    if NoFreeChunk(m.blocks, eltSize) then {PageAt(m, 1) as int} else {}
  }

  /** The free pages are fewer than the request takes: its run, the page of a new
      block, and the page tables that these lack. */
  ghost predicate Short(m: Moment, size: nat)
    requires m.Shaped() && size <= 0x8000_0000 && !Exhausted(m, size)
  {
    var rounded := RoundedUp(size);
    if rounded < PAGE_SIZE then
      var more := GrowthPages(m, rounded);
      FreeIn(m.maps) < |more| + |SlotsOf(more) - m.tables|
    else
      var n := rounded / PAGE_SIZE;
      var run, more := PageRange(PageAt(m, n), n), GrowthPages(TakeRun(m, n), 16);
      FreeIn(m.maps) < n + |more| + |SlotsOf(run + more) - m.tables|
  }

  /** NULL and the panic have exact reasons, which a caller could check before. */
  lemma StepReasons(m: Moment, size: nat, r: Result, n: Moment)
    requires m.Shaped() && size <= 0x8000_0000 && AllocStep(m, size, r, n)
    ensures r == Null <==> Exhausted(m, size)
    ensures r == Halt <==> !Exhausted(m, size) && Short(m, size)
  {
    hide RoundedUp;
    if size > 0 {
      if RoundedUp(size) < PAGE_SIZE {
        ChunkReasons(m, RoundedUp(size), size, r, n);
        if !NoFreeChunk(m.blocks, RoundedUp(size)) { assert SlotsOf({}) - m.tables == {}; }
      } else {
        BigReasons(m, RoundedUp(size), size, r, n);
      }
    }
  }

  lemma ChunkReasons(m: Moment, eltSize: nat, size: nat, r: Result, n: Moment)
    requires m.Shaped() && ChunkStep(m, eltSize, size, r, n)
    ensures r == Null <==> NoFreeChunk(m.blocks, eltSize) && NoFreeRun(m.maps, 1)
    ensures r == Halt <==>
      && NoFreeChunk(m.blocks, eltSize) && !NoFreeRun(m.maps, 1)
      && FreeIn(m.maps) < 1 + |SlotsOf({PageAt(m, 1) as int}) - m.tables|
  {
    hide NoFreeChunk;
    hide NoFreeRun;
    hide ChunkTaken;
    if !NoFreeRun(m.maps, 1) {
      TakeFree(m.maps, 1);
    }
  }

  /** What is left for the mappings once there is a chunk for the metadata. */
  lemma AfterChunk(m: Moment, eltSize: nat, size: nat, r: Result, n: Moment)
    requires m.Shaped() && ChunkStep(m, eltSize, size, r, n) && r.Ptr?
    ensures NoFreeChunk(m.blocks, eltSize) ==> !NoFreeRun(m.maps, 1)
    ensures n.tables == m.tables + SlotsOf(GrowthPages(m, eltSize))
    ensures FreeIn(n.maps) + |GrowthPages(m, eltSize)| + |SlotsOf(GrowthPages(m, eltSize)) - m.tables| == FreeIn(m.maps)
  {
    hide NoFreeRun;
    hide NoFreeChunk;
    if NoFreeChunk(m.blocks, eltSize) {
      var page: int := PageAt(m, 1);
      TakeFree(m.maps, 1);
      TakeEachFree(Take(m.maps, 1), |SlotsOf({page}) - m.tables|);
    } else {
      assert SlotsOf({}) == {};
    }
  }

  lemma BigReasons(m: Moment, size: nat, asked: nat, r: Result, n: Moment)
    requires m.Shaped() && BigStep(m, size, asked, r, n)
    ensures r == Null <==> NoPages(m, size / PAGE_SIZE)
    ensures r == Halt <==>
      && !NoPages(m, size / PAGE_SIZE)
      && var nb := size / PAGE_SIZE;
         var run, more := PageRange(PageAt(m, nb), nb), GrowthPages(TakeRun(m, nb), META_SIZE);
         FreeIn(m.maps) < nb + |more| + |SlotsOf(run + more) - m.tables|
  {
    hide NoFreeRun;
    hide NoFreeChunk;
    hide ChunkStep;
    hide BigAt;
    hide SlotsOf;
    var nb := size / PAGE_SIZE;
    if !NoFreeRun(m.maps, nb) {
      var taken, run := TakeRun(m, nb), PageRange(PageAt(m, nb), nb);
      TakeFree(m.maps, nb);
      var meta, mid :|
        ChunkStep(taken, META_SIZE, META_SIZE, meta, mid) && BigEnd(m, size, asked, PageAt(m, nb), meta, mid, r, n);
      ChunkReasons(taken, META_SIZE, META_SIZE, meta, mid);
      if !NoPages(m, nb) {
        var more := GrowthPages(taken, META_SIZE);
        SlotsCost(m.tables, more, run);
        assert more + run == run + more;
        if meta.Ptr? {
          AfterChunk(taken, META_SIZE, META_SIZE, meta, mid);
        }
      }
    }
  }

  // --------------------------------------------------------------------------
  // kfree

  ghost predicate InArea(b: BlockView, p: int) {
    b.first <= p < b.page * PAGE_SIZE + PAGE_SIZE
  }

  /** Block i is the first one with p in its chunk area. */
  ghost predicate Holder(blocks: seq<BlockView>, p: int, i: int) {
    0 <= i < |blocks| && InArea(blocks[i], p) && forall j :: 0 <= j < i ==> !InArea(blocks[j], p)
  }

  ghost predicate ChunkGiven(m: Moment, p: int, n: Moment) {
    exists i: nat :: ChunkGivenAt(m, p, n, i)
  }

  ghost predicate ChunkGivenAt(m: Moment, p: int, n: Moment, i: nat) {
    && Holder(m.blocks, p, i)
    && n == m.(blocks := m.blocks[i := m.blocks[i].(used := m.blocks[i].used - {p})], live := m.live - {p})
  }

  lemma ChunkGivenUnique(m: Moment, p: int, n: Moment, o: Moment)
    requires ChunkGiven(m, p, n) && ChunkGiven(m, p, o)
    ensures n == o
  {
    hide InArea;
    var i: nat :| ChunkGivenAt(m, p, n, i);
    var j: nat :| ChunkGivenAt(m, p, o, j);
    assert !(i < j) && !(j < i);
  }

  ghost predicate FirstBig(bigs: seq<Big>, p: int, j: int) {
    0 <= j < |bigs| && bigs[j].ptr == p && forall k :: 0 <= k < j ==> bigs[k].ptr != p
  }

  /** Region r is the first one with the page. */
  ghost predicate FirstSpan(m: Moment, page: int, r: int)
    requires m.Shaped()
  {
    && 0 <= r < |m.maps| && m.firsts[r] <= page < m.firsts[r] + |m.maps[r]|
    && forall q :: 0 <= q < r ==> !(m.firsts[q] <= page < m.firsts[q] + |m.maps[q]|)
  }

  /** The page group at a page is given back. */
  ghost predicate PagesGiven(m: Moment, page: int, now: seq<Pages>)
    requires m.Shaped()
  {
    exists r: nat :: PagesGivenAt(m, page, now, r)
  }

  ghost predicate PagesGivenAt(m: Moment, page: int, now: seq<Pages>, r: nat)
    requires m.Shaped()
  {
    FirstSpan(m, page, r) && GivenBack(m.maps, now, r, page - m.firsts[r])
  }

  lemma PagesGivenUnique(m: Moment, page: int, now: seq<Pages>, other: seq<Pages>)
    requires m.Shaped() && PagesGiven(m, page, now) && PagesGiven(m, page, other)
    ensures now == other
  {
    var r: nat :| PagesGivenAt(m, page, now, r);
    var q: nat :| PagesGivenAt(m, page, other, q);
    assert !(r < q) && !(q < r);
  }

  /** big_free up to its own kfree: the metadata chunk is an ordinary chunk again. */
  ghost function Unlinked(m: Moment, j: nat, now: seq<Pages>): Moment
    requires j < |m.bigs|
  {
    m.(maps := now, bigs := Without(m.bigs, j), live := (m.live - {m.bigs[j].ptr})[m.bigs[j].meta := META_SIZE])
  }

  ghost predicate BigGiven(m: Moment, j: nat, n: Moment)
    requires m.Shaped() && j < |m.bigs|
  {
    exists now :: PagesGiven(m, PageOf(m.bigs[j].ptr), now) && ChunkGiven(Unlinked(m, j, now), m.bigs[j].meta, n)
  }

  ghost predicate FreeStep(m: Moment, p: int, n: Moment)
    requires m.Shaped()
  {
    || ChunkGiven(m, p, n)
    || ((forall i :: !Holder(m.blocks, p, i)) && exists j: nat :: FirstBig(m.bigs, p, j) && BigGiven(m, j, n))
  }

  lemma FreeStepUnique(m: Moment, p: int, n: Moment, o: Moment)
    requires m.Shaped() && FreeStep(m, p, n) && FreeStep(m, p, o)
    ensures n == o
  {
    hide Holder;
    hide PagesGiven;
    if ChunkGiven(m, p, n) || ChunkGiven(m, p, o) {
      assert ChunkGiven(m, p, n) && ChunkGiven(m, p, o);
      ChunkGivenUnique(m, p, n, o);
    } else {
      hide ChunkGiven;
      var j: nat :| FirstBig(m.bigs, p, j) && BigGiven(m, j, n);
      var k: nat :| FirstBig(m.bigs, p, k) && BigGiven(m, k, o);
      assert !(j < k) && !(k < j);
      var now :| PagesGiven(m, PageOf(m.bigs[j].ptr), now) && ChunkGiven(Unlinked(m, j, now), m.bigs[j].meta, n);
      var other :| PagesGiven(m, PageOf(m.bigs[k].ptr), other) && ChunkGiven(Unlinked(m, k, other), m.bigs[k].meta, o);
      PagesGivenUnique(m, PageOf(m.bigs[j].ptr), now, other);
      ChunkGivenUnique(Unlinked(m, j, now), m.bigs[j].meta, n, o);
    }
  }

  // --------------------------------------------------------------------------
  // Requests

  datatype Request = Allocate(size: nat) | Deallocate(ptr: nat)

  predicate Servable(request: Request) {
    request.Allocate? ==> request.size <= 0x8000_0000
  }

  /** One request: callers only free what they hold; other releases are not made. */
  ghost predicate Step(m: Moment, request: Request, r: Result, n: Moment)
    requires m.Shaped() && Servable(request)
  {
    match request
    case Allocate(size) => AllocStep(m, size, r, n)
    case Deallocate(ptr) => r == Null && if ptr in m.live then FreeStep(m, ptr, n) else n == m
  }

  /** The moment and the request determine the answer and the next moment. */
  lemma StepUnique(m: Moment, request: Request, r: Result, n: Moment, q: Result, o: Moment)
    requires m.Shaped() && Servable(request) && Step(m, request, r, n) && Step(m, request, q, o)
    ensures r == q && (r != Halt ==> n == o)
  {
    hide ChunkStep;
    hide BigStep;
    hide FreeStep;
    hide RoundedUp;
    match request {
      case Allocate(size) =>
        if size > 0 {
          if RoundedUp(size) < PAGE_SIZE {
            ChunkStepUnique(m, RoundedUp(size), size, r, n, q, o);
          } else {
            BigStepUnique(m, RoundedUp(size), size, r, n, q, o);
          }
        }
      case Deallocate(ptr) =>
        if ptr in m.live {
          FreeStepUnique(m, ptr, n, o);
        }
    }
  }
}
