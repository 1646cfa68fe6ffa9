/** paging_setup: the directory, its self-map and the identity mappings that the
    kernel needs before paging is enabled (kernel/mem/paging.c:93-140, 558-627). */
module PagingBoot {
  import opened Memory
  import opened PageFlags
  import opened PageTables
  import opened Paging
  import opened FirstFit
  import FA = FrameAllocator
  import PM = Pagemap
  import opened Wrappers

  /** The pages that a loop from start in page steps touches before limit. */
  ghost function PagesIn(start: nat, limit: nat): (r: set<int>)
    requires Aligned(start)
    ensures forall p :: p in r <==> start <= p * PAGE_SIZE < limit
    decreases limit - start
  {
    if start >= limit then {} else {start / PAGE_SIZE} + PagesIn(start + PAGE_SIZE, limit)
  }

  /** Below the self-mapping slot, exactly the given pages are mapped, each to itself. */
  ghost predicate IdentityOnly(m: Ram, dir: Frame, pages: set<int>) {
    forall v: Frame :: v < WINDOW_PAGE ==> Walk(m, dir, v) == if v in pages then Some(v) else None
  }

  lemma IdentityStep(m: Ram, n: Ram, dir: Frame, pages: set<int>, v: Frame)
    requires IdentityOnly(m, dir, pages) && SameWalks(m, n, dir, {v}) && Walk(n, dir, v) == Some(v)
    ensures IdentityOnly(n, dir, pages + {v})
  {
  }

  lemma IdentityAt(m: Ram, dir: Frame, pages: set<int>, v: Frame)
    requires IdentityOnly(m, dir, pages) && v < WINDOW_PAGE
    ensures Walk(m, dir, v) == if v in pages then Some(v) else None
  {
  }

  lemma NoPages(start: nat)
    requires Aligned(start)
    ensures PagesIn(start, start) == {}
  {
  }

  // A range that paging_setup identity maps: pages from start up to limit.
  datatype BootRange = BootRange(start: nat, limit: nat) {
    predicate Ok() { Aligned(start) && limit <= TABLE_WINDOW }
  }

  /** One step of the mapping loop.  It ends in a panic when the page is mapped
      already, or when it lacks a page table and there is no frame for one. */
  method MapOne(mmu: Mmu, addr: Address, ghost pages: set<int>) returns (r: MapResult)
    requires mmu.Valid() && Aligned(addr) && addr < TABLE_WINDOW && IdentityOnly(mmu.Contents(), mmu.dir, pages)
    requires Uniform(mmu.Contents(), mmu.dir, RW_KERNEL_NOCACHE)
    modifies mmu.ram, mmu`owned, mmu.pfa.Repr
    ensures mmu.Valid() && Uniform(mmu.Contents(), mmu.dir, RW_KERNEL_NOCACHE)
    ensures r == if PageOf(addr) in pages then AlreadyMapped
                 else if Mappable(old(mmu.pfa.Maps()), old(mmu.Slots()), {PageOf(addr)}) then Mapped
                 else OutOfMemory
    ensures r == Mapped ==>
      && IdentityOnly(mmu.Contents(), mmu.dir, pages + {PageOf(addr)})
      && mmu.pfa.Maps() == MapsAfter(old(mmu.pfa.Maps()), old(mmu.Slots()), {PageOf(addr)})
      && mmu.Slots() == old(mmu.Slots()) + SlotsOf({PageOf(addr)})
      && old(mmu.owned) <= mmu.owned
  {
    hide FA.Allocator.Valid;
    hide Sound;
    hide IdentityOnly;
    hide Uniform;
    hide SameWalks;
    hide TableSlots;
    hide SlotsOf;
    hide Mappable;
    hide MapsAfter;
    hide PM.NoFreeRun;
    ghost var m, v, slot := mmu.Contents(), PageOf(addr), DirectoryIndex(addr);
    UniformPde(m, mmu.dir, RW_KERNEL_NOCACHE, slot);
    IdentityAt(m, mmu.dir, pages, v);
    mmu.PageIndexes(addr);
    OnePage(mmu.pfa.Maps(), mmu.Slots(), v);
    SlotsAre(m, mmu.dir, slot);
    assert mmu.Present(m, slot) <==> slot in TableSlots(m, mmu.dir);
    ghost var nf;
    r, nf := mmu.MapPage(addr, addr, Word(0, RW_KERNEL_NOCACHE));
    if r == Mapped {
      IdentityStep(m, mmu.Contents(), mmu.dir, pages, v);
    }
  }

  /** The pages of a loop from start in page steps, up to one that is mapped. */
  ghost function Until(pages: set<int>, start: nat, limit: nat): (r: set<int>)
    requires Aligned(start)
    ensures pages !! PagesIn(start, limit) ==> r == PagesIn(start, limit)
    decreases limit - start
  {
    if start >= limit || PageOf(start) in pages then {}
    else {PageOf(start)} + Until(pages, start + PAGE_SIZE, limit)
  }

  lemma NextPage(start: nat, addr: nat, limit: nat)
    requires Aligned(start) && Aligned(addr) && start <= addr < limit
    ensures PageOf(addr) in PagesIn(start, limit) && PageOf(addr) !in PagesIn(start, addr)
    ensures PagesIn(start, addr + PAGE_SIZE) == PagesIn(start, addr) + {PageOf(addr)}
    ensures Aligned(addr + PAGE_SIZE)
  {
    hide PagesIn;
  }

  /** The mapping loop over one range. */
  method MapRange(mmu: Mmu, range: BootRange, ghost pages: set<int>) returns (r: MapResult)
    requires mmu.Valid() && range.Ok() && IdentityOnly(mmu.Contents(), mmu.dir, pages)
    requires Uniform(mmu.Contents(), mmu.dir, RW_KERNEL_NOCACHE)
    modifies mmu.ram, mmu`owned, mmu.pfa.Repr
    ensures mmu.Valid() && Uniform(mmu.Contents(), mmu.dir, RW_KERNEL_NOCACHE)
    ensures var until := Until(pages, range.start, range.limit);
            r == if !Mappable(old(mmu.pfa.Maps()), old(mmu.Slots()), until) then OutOfMemory
                 else if pages !! PagesIn(range.start, range.limit) then Mapped
                 else AlreadyMapped
    ensures r == Mapped ==>
      && IdentityOnly(mmu.Contents(), mmu.dir, pages + PagesIn(range.start, range.limit))
      && mmu.pfa.Maps() == MapsAfter(old(mmu.pfa.Maps()), old(mmu.Slots()), PagesIn(range.start, range.limit))
      && mmu.Slots() == old(mmu.Slots()) + SlotsOf(PagesIn(range.start, range.limit))
      && old(mmu.owned) <= mmu.owned
  {
    hide FA.Allocator.Valid;
    hide Sound;
    hide IdentityOnly;
    hide Uniform;
    hide PagesIn;
    hide Until;
    hide Mappable;
    hide MapsAfter;
    hide SlotsOf;
    hide Mmu.Slots;
    mmu.HasShape();
    hide Mmu.Valid;
    ghost var maps, tables, all := mmu.pfa.Maps(), mmu.Slots(), Until(pages, range.start, range.limit);
    hide Reaching;
    hide Spent;
    ReachStart(pages, range);
    NothingSpent(maps, tables);
    var addr := range.start;
    ghost var now: set<int> := {};
    assert pages + now == pages;
    while addr < range.limit
      invariant Aligned(addr) && mmu.Valid()
      invariant Uniform(mmu.Contents(), mmu.dir, RW_KERNEL_NOCACHE)
      invariant Reaching(pages, range, addr, now, all) && IdentityOnly(mmu.Contents(), mmu.dir, pages + now)
      invariant Spent(maps, tables, now, mmu.pfa.Maps(), mmu.Slots()) && old(mmu.owned) <= mmu.owned
      decreases range.limit - addr
    {
      ghost var more := now + {PageOf(addr)};
      ReachStep(pages, range, addr, now, all);
      ghost var before, slots := mmu.pfa.Maps(), mmu.Slots();
      r := MapOne(mmu, addr, pages + now);
      if r == OutOfMemory {
        SpentAll(maps, tables, now, before, slots, PageOf(addr), all);
      }
      if r != Mapped {
        SpentSoFar(maps, tables, now, before, slots);
        return;
      }
      SpentStep(maps, tables, now, before, slots, PageOf(addr), mmu.pfa.Maps(), mmu.Slots());
      now := more;
      addr := addr + PAGE_SIZE;
    }
    ReachEnd(pages, range, addr, now, all);
    SpentSoFar(maps, tables, now, mmu.pfa.Maps(), mmu.Slots());
    r := Mapped;
  }

  /** The pages are mapped, and the frames for their page tables taken. */
  ghost predicate Spent(maps: seq<PM.Pages>, tables: set<int>, pages: set<int>, maps': seq<PM.Pages>, tables': set<int>)
  {
    Mappable(maps, tables, pages) && maps' == MapsAfter(maps, tables, pages) && tables' == tables + SlotsOf(pages)
  }

  lemma SpentStep(maps: seq<PM.Pages>, tables: set<int>, pages: set<int>, maps': seq<PM.Pages>, tables': set<int>,
                  p: int, maps'': seq<PM.Pages>, tables'': set<int>)
    requires Spent(maps, tables, pages, maps', tables') && Mappable(maps', tables', {p})
    requires maps'' == MapsAfter(maps', tables', {p}) && tables'' == tables' + SlotsOf({p})
    ensures Spent(maps, tables, pages + {p}, maps'', tables'')
  {
    hide Mappable;
    hide MapsAfter;
    hide SlotsOf;
    MorePages(maps, tables, pages, {p});
  }

  /** One page too many is too many for all. */
  lemma SpentAll(maps: seq<PM.Pages>, tables: set<int>, pages: set<int>, maps': seq<PM.Pages>, tables': set<int>,
                 p: int, all: set<int>)
    requires Spent(maps, tables, pages, maps', tables') && !Mappable(maps', tables', {p}) && pages + {p} <= all
    ensures !Mappable(maps, tables, all)
  {
    hide Mappable;
    hide MapsAfter;
    hide SlotsOf;
    MorePages(maps, tables, pages, {p});
    LessMappable(maps, tables, pages + {p}, all);
  }

  lemma SpentSoFar(maps: seq<PM.Pages>, tables: set<int>, pages: set<int>, maps': seq<PM.Pages>, tables': set<int>)
    requires Spent(maps, tables, pages, maps', tables')
    ensures Mappable(maps, tables, pages) && maps' == MapsAfter(maps, tables, pages)
    ensures tables' == tables + SlotsOf(pages)
  {
  }

  lemma NothingSpent(maps: seq<PM.Pages>, tables: set<int>)
    ensures Spent(maps, tables, {}, maps, tables)
  {
    NothingToMap(maps, tables);
  }

  /** now are the pages of the range below addr, all those that the loop reaches. */
  ghost predicate Reaching(pages: set<int>, range: BootRange, addr: nat, now: set<int>, all: set<int>)
    requires range.Ok() && Aligned(addr)
  {
    && range.start <= addr && now == PagesIn(range.start, addr)
    && pages !! now && now <= PagesIn(range.start, range.limit)
    && all == now + Until(pages, addr, range.limit)
  }

  lemma ReachStart(pages: set<int>, range: BootRange)
    requires range.Ok()
    ensures Reaching(pages, range, range.start, {}, Until(pages, range.start, range.limit))
  {
    NoPages(range.start);
    hide PagesIn;
  }

  lemma ReachEnd(pages: set<int>, range: BootRange, addr: nat, now: set<int>, all: set<int>)
    requires range.Ok() && Aligned(addr) && addr >= range.limit && Reaching(pages, range, addr, now, all)
    ensures now == PagesIn(range.start, range.limit) && all == PagesIn(range.start, range.limit)
    ensures pages !! PagesIn(range.start, range.limit)
  {
    hide PagesIn;
    UntilEnd(pages, addr, range.limit);
  }

  lemma ReachStep(pages: set<int>, range: BootRange, addr: nat, now: set<int>, all: set<int>)
    requires range.Ok() && Aligned(addr) && addr < range.limit && Reaching(pages, range, addr, now, all)
    ensures var p, more := PageOf(addr), now + {PageOf(addr)};
      && pages + now + {p} == pages + more && (p in pages + now <==> p in pages)
      && (p in pages ==> all == now && !(pages !! PagesIn(range.start, range.limit)))
      && (p !in pages ==>
            more <= all && Aligned(addr + PAGE_SIZE) && Reaching(pages, range, addr + PAGE_SIZE, more, all))
  {
    hide PagesIn;
    NextPage(range.start, addr, range.limit);
    UntilStep(pages, addr, range.limit);
    hide Until;
  }

  lemma UntilStep(pages: set<int>, addr: nat, limit: nat)
    requires Aligned(addr) && addr < limit
    ensures Until(pages, addr, limit) ==
            if PageOf(addr) in pages then {} else {PageOf(addr)} + Until(pages, addr + PAGE_SIZE, limit)
  {
  }

  lemma UntilEnd(pages: set<int>, addr: nat, limit: nat)
    requires Aligned(addr) && addr >= limit
    ensures Until(pages, addr, limit) == {}
  {
  }

  lemma LessMappable(maps: seq<PM.Pages>, tables: set<int>, some: set<int>, pages: set<int>)
    requires some <= pages && !Mappable(maps, tables, some)
    ensures !Mappable(maps, tables, pages)
  {
    if Mappable(maps, tables, pages) {
      FewerPages(maps, tables, some, pages);
    }
  }

  ghost function Pages(r: BootRange): (s: set<int>)
    requires r.Ok()
  {
    PagesIn(r.start, r.limit)
  }

  ghost function AllPages(ranges: seq<BootRange>): (s: set<int>)
    requires forall i :: 0 <= i < |ranges| ==> ranges[i].Ok()
    ensures forall p :: p in s <==> exists i :: 0 <= i < |ranges| && p in Pages(ranges[i])
  {
    set i, p | 0 <= i < |ranges| && p in Pages(ranges[i]) :: p
  }

  /** No page belongs to two of the ranges. */
  ghost predicate PagesApart(ranges: seq<BootRange>) {
    && (forall i :: 0 <= i < |ranges| ==> ranges[i].Ok())
    && forall i, j :: 0 <= i < j < |ranges| ==> Pages(ranges[i]) !! Pages(ranges[j])
  }

  /** The pages that are mapped when the loops over the ranges come to an end, or
      to a page that is mapped already. */
  ghost function Reached(ranges: seq<BootRange>): set<int>
    requires forall i :: 0 <= i < |ranges| ==> ranges[i].Ok()
  {
    if ranges == [] then {}
    else
      var n := |ranges| - 1;
      assert ranges[n].Ok();
      if !PagesApart(ranges[..n]) then Reached(ranges[..n])
      else AllPages(ranges[..n]) + Until(AllPages(ranges[..n]), ranges[n].start, ranges[n].limit)
  }

  lemma AllPagesLast(ranges: seq<BootRange>)
    requires ranges != [] && forall i :: 0 <= i < |ranges| ==> ranges[i].Ok()
    ensures AllPages(ranges) == AllPages(ranges[..|ranges| - 1]) + Pages(ranges[|ranges| - 1])
  {
    hide Pages;
  }

  lemma ReachedAll(ranges: seq<BootRange>)
    requires PagesApart(ranges)
    ensures Reached(ranges) == AllPages(ranges)
  {
    hide Pages;
    if ranges != [] {
      var n := |ranges| - 1;
      ApartBefore(ranges, n);
      AllPagesLast(ranges);
      forall p, i | 0 <= i < n && p in Pages(ranges[i]) ensures p !in Pages(ranges[n]) {
        assert Pages(ranges[i]) !! Pages(ranges[n]);
      }
      hide PagesApart;
      UntilAll(AllPages(ranges[..n]), ranges[n]);
      hide AllPages;
      hide Until;
    }
  }

  lemma UntilAll(pages: set<int>, range: BootRange)
    requires range.Ok() && pages !! Pages(range)
    ensures Until(pages, range.start, range.limit) == Pages(range)
  {
  }

  /** What was reached stays reached, and a double mapping is the end. */
  lemma {:induction false} ReachedMore(ranges: seq<BootRange>, k: nat)
    requires k <= |ranges| && forall i :: 0 <= i < |ranges| ==> ranges[i].Ok()
    ensures Reached(ranges[..k]) <= Reached(ranges)
    ensures !PagesApart(ranges[..k]) ==> Reached(ranges) == Reached(ranges[..k]) && !PagesApart(ranges)
    decreases |ranges|
  {
    hide PagesApart;
    hide Reached;
    if k == |ranges| {
      assert ranges[..k] == ranges;
    } else {
      ReachedMore(ranges[..|ranges| - 1], k);
      assert ranges[..|ranges| - 1][..k] == ranges[..k];
      ReachedStep(ranges);
    }
  }

  lemma ReachedStep(ranges: seq<BootRange>)
    requires ranges != [] && forall i :: 0 <= i < |ranges| ==> ranges[i].Ok()
    ensures var before := ranges[..|ranges| - 1];
      && Reached(before) <= Reached(ranges)
      && (!PagesApart(before) ==> Reached(ranges) == Reached(before) && !PagesApart(ranges))
  {
    hide Until;
    hide AllPages;
    var before := ranges[..|ranges| - 1];
    if PagesApart(before) {
      ReachedAll(before);
    } else if PagesApart(ranges) {
      ApartBefore(ranges, |ranges| - 1);
    }
  }

  lemma ApartBefore(ranges: seq<BootRange>, k: nat)
    requires k <= |ranges| && PagesApart(ranges)
    ensures PagesApart(ranges[..k])
  {
    hide Pages;
  }

  /** bootstrap_mapping, with the metadata and the module among the ranges: which
      of its two panics comes, if any, is decided by the pages that it reaches. */
  method BootstrapMapping(mmu: Mmu, ranges: seq<BootRange>) returns (r: MapResult)
    requires mmu.Valid() && IdentityOnly(mmu.Contents(), mmu.dir, {}) && mmu.Slots() == {}
    requires Uniform(mmu.Contents(), mmu.dir, RW_KERNEL_NOCACHE)
    requires forall i :: 0 <= i < |ranges| ==> ranges[i].Ok()
    modifies mmu.ram, mmu`owned, mmu.pfa.Repr
    ensures mmu.Valid() && Uniform(mmu.Contents(), mmu.dir, RW_KERNEL_NOCACHE)
    ensures r == if !Mappable(old(mmu.pfa.Maps()), {}, Reached(ranges)) then OutOfMemory
                 else if PagesApart(ranges) then Mapped
                 else AlreadyMapped
    ensures r == Mapped ==>
      && Mappable(old(mmu.pfa.Maps()), {}, AllPages(ranges))
      && mmu.pfa.Maps() == MapsAfter(old(mmu.pfa.Maps()), {}, AllPages(ranges))
      && mmu.Slots() == SlotsOf(AllPages(ranges)) && old(mmu.owned) <= mmu.owned
      && IdentityOnly(mmu.Contents(), mmu.dir, AllPages(ranges))
  {
    hide FA.Allocator.Valid;
    hide Sound;
    hide IdentityOnly;
    hide Uniform;
    hide PagesApart;
    hide AllPages;
    hide PagesIn;
    hide Reached;
    hide Until;
    hide Mappable;
    hide MapsAfter;
    hide SlotsOf;
    hide Mmu.Slots;
    ghost var maps := mmu.pfa.Maps();
    NoRanges();
    NothingToMap(maps, {});
    assert ranges[..0] == [];
    for k := 0 to |ranges|
      invariant mmu.Valid() && Uniform(mmu.Contents(), mmu.dir, RW_KERNEL_NOCACHE)
      invariant PagesApart(ranges[..k]) && IdentityOnly(mmu.Contents(), mmu.dir, AllPages(ranges[..k]))
      invariant Mappable(maps, {}, AllPages(ranges[..k]))
      invariant mmu.pfa.Maps() == MapsAfter(maps, {}, AllPages(ranges[..k]))
      invariant mmu.Slots() == SlotsOf(AllPages(ranges[..k])) && old(mmu.owned) <= mmu.owned
    {
      ghost var before := AllPages(ranges[..k]);
      RangeReached(maps, ranges, k);
      r := MapRange(mmu, ranges[k], before);
      if r != Mapped {
        return;
      }
      RangeMore(ranges, k);
    }
    assert ranges[..|ranges|] == ranges;
    ReachedAll(ranges);
    r := Mapped;
  }

  /** What the next range decides. */
  lemma RangeReached(maps: seq<PM.Pages>, ranges: seq<BootRange>, k: nat)
    requires k < |ranges| && forall i :: 0 <= i < |ranges| ==> ranges[i].Ok()
    requires PagesApart(ranges[..k]) && Mappable(maps, {}, AllPages(ranges[..k]))
    ensures var before, more := AllPages(ranges[..k]), Pages(ranges[k]);
      var now, slots := MapsAfter(maps, {}, before), SlotsOf(before);
      var until := Until(before, ranges[k].start, ranges[k].limit);
      && (!Mappable(now, slots, until) ==> !Mappable(maps, {}, Reached(ranges)))
      && (Mappable(now, slots, until) && !(before !! more) ==>
            Mappable(maps, {}, Reached(ranges)) && !PagesApart(ranges))
      && (Mappable(now, slots, until) && before !! more ==>
            && Mappable(maps, {}, before + more)
            && MapsAfter(now, slots, more) == MapsAfter(maps, {}, before + more)
            && slots + SlotsOf(more) == SlotsOf(before + more))
  {
    hide PagesIn;
    hide Mappable;
    hide MapsAfter;
    hide SlotsOf;
    hide AllPages;
    hide Reached;
    hide Until;
    hide PagesApart;
    var before := AllPages(ranges[..k]);
    var until := Until(before, ranges[k].start, ranges[k].limit);
    ReachedNext(ranges, k);
    ReachedMore(ranges, k + 1);
    MorePages(maps, {}, before, until);
    NoTables(before);
    NoTables(before + until);
    if !Mappable(maps, {}, before + until) {
      LessMappable(maps, {}, before + until, Reached(ranges));
    }
    if !(before !! Pages(ranges[k])) {
      assert ranges[..k + 1][..k] == ranges[..k] && ranges[..k + 1][k] == ranges[k];
      SharedPage(ranges[..k + 1], k);
    }
  }

  lemma NoTables(pages: set<int>)
    ensures {} + SlotsOf(pages) == SlotsOf(pages)
  {
    hide SlotsOf;
  }

  lemma ReachedNext(ranges: seq<BootRange>, k: nat)
    requires k < |ranges| && (forall i :: 0 <= i < |ranges| ==> ranges[i].Ok()) && PagesApart(ranges[..k])
    ensures Reached(ranges[..k + 1]) ==
            AllPages(ranges[..k]) + Until(AllPages(ranges[..k]), ranges[k].start, ranges[k].limit)
  {
    hide AllPages;
    hide Until;
    hide PagesApart;
    assert ranges[..k + 1][..k] == ranges[..k] && ranges[..k + 1][k] == ranges[k];
  }

  lemma NoRanges()
    ensures PagesApart([]) && AllPages([]) == {}
  {
  }

  lemma RangeMore(ranges: seq<BootRange>, k: nat)
    requires k < |ranges| && ranges[k].Ok() && PagesApart(ranges[..k]) && AllPages(ranges[..k]) !! Pages(ranges[k])
    ensures PagesApart(ranges[..k + 1]) && AllPages(ranges[..k + 1]) == AllPages(ranges[..k]) + Pages(ranges[k])
  {
    hide Pages;
    var next := ranges[..k + 1];
    assert next[..k] == ranges[..k];
    forall i, j | 0 <= i < j < |next|
      ensures Pages(next[i]) !! Pages(next[j])
    {
      assert ranges[..k][i] == next[i];
      if j < k {
        assert ranges[..k][j] == next[j];
      } else {
        assert forall p :: p in Pages(ranges[..k][i]) ==> p in AllPages(ranges[..k]);
      }
    }
  }

  lemma SharedPage(ranges: seq<BootRange>, k: nat)
    requires k < |ranges| && forall i :: 0 <= i < |ranges| ==> ranges[i].Ok()
    requires !(AllPages(ranges[..k]) !! Pages(ranges[k]))
    ensures !PagesApart(ranges)
  {
    var p :| p in AllPages(ranges[..k]) && p in Pages(ranges[k]);
    var i :| 0 <= i < k && p in Pages(ranges[..k][i]);
    assert ranges[..k][i] == ranges[i];
  }

  /** The directory of paging_setup: nothing but the self-map. */
  method MakeDirectory(mmu: Mmu, phys: nat)
    requires mmu.Shape() && !mmu.pagingEnabled && Aligned(phys) && phys < TABLE_WINDOW
    modifies mmu.ram, mmu`dir, mmu`owned, mmu`pageDirectory
    ensures mmu.dir == PageOf(phys) && mmu.owned == {PageOf(phys)} && mmu.pageDirectory == phys
    ensures Sound(mmu.Contents(), mmu.dir, mmu.owned)
    ensures IdentityOnly(mmu.Contents(), mmu.dir, {}) && Uniform(mmu.Contents(), mmu.dir, RW_KERNEL_NOCACHE)
    ensures mmu.Slots() == {}
  {
    ghost var frame := PageOf(phys);
    for entry := 0 to NB_SLOTS
      invariant forall i :: 0 <= i < entry ==> mmu.Contents()[frame][i] == Word(0, RW_KERNEL_NOCACHE)
    {
      mmu.Store(phys + 4 * entry, Word(0, RW_KERNEL_NOCACHE), frame, entry);
    }
    assert !IsPresent(RW_KERNEL_NOCACHE);
    mmu.Store(phys + 4 * SELF_SLOT, Word(phys / PAGE_SIZE, SetPresent(RW_KERNEL_NOCACHE)), frame, SELF_SLOT);
    mmu.dir, mmu.owned := frame, {frame};
    mmu.pageDirectory := phys;
  }

  /** The rest of paging_setup, once there is a frame for the directory. */
  method SetupAt(mmu: Mmu, phys: Address, ranges: seq<BootRange>) returns (r: MapResult)
    requires mmu.Shape() && !mmu.pagingEnabled && mmu.pfa.Valid()
    requires mmu.ram !in mmu.pfa.Repr && mmu !in mmu.pfa.Repr
    requires Aligned(phys) && phys < TABLE_WINDOW && PageOf(phys) in mmu.pfa.live && mmu.pfa.live[PageOf(phys)] == 1
    requires forall i :: 0 <= i < |ranges| ==> ranges[i].Ok()
    modifies mmu, mmu.ram, mmu.pfa.Repr
    ensures r == if !Mappable(old(mmu.pfa.Maps()), {}, Reached(ranges)) then OutOfMemory
                 else if PagesApart(ranges) then Mapped
                 else AlreadyMapped
    ensures mmu.pfa.Valid()
    ensures r == Mapped ==>
      && mmu.Valid() && mmu.pagingEnabled && PageOf(phys) in mmu.owned
      && Mappable(old(mmu.pfa.Maps()), {}, AllPages(ranges))
      && mmu.pfa.Maps() == MapsAfter(old(mmu.pfa.Maps()), {}, AllPages(ranges))
      && mmu.Slots() == SlotsOf(AllPages(ranges))
      && IdentityOnly(mmu.Contents(), mmu.dir, AllPages(ranges))
      && Uniform(mmu.Contents(), mmu.dir, RW_KERNEL_NOCACHE)
  {
    hide FA.Allocator.Valid;
    hide Sound;
    hide IdentityOnly;
    hide Uniform;
    hide PagesApart;
    hide Mappable;
    hide MapsAfter;
    hide SlotsOf;
    hide Reached;
    hide AllPages;
    MakeDirectory(mmu, phys);
    hide TableSlots;
    r := BootstrapMapping(mmu, ranges);
    if r == Mapped {
      mmu.cr3 := phys / PAGE_SIZE;
      mmu.pageDirectory := DIRECTORY_WINDOW;
      mmu.pagingEnabled := true;
    }
  }

  /** What the page tables cost after the directory. */
  lemma AfterDirectory(maps: seq<PM.Pages>, pages: set<int>)
    requires !PM.NoFreeRun(maps, 1)
    ensures FreeIn(maps) > 0
    ensures Mappable(Take(maps, 1), {}, pages) <==> 1 + |SlotsOf(pages)| <= FreeIn(maps)
    ensures Mappable(Take(maps, 1), {}, pages) ==>
      MapsAfter(Take(maps, 1), {}, pages) == TakeEach(maps, 1 + |SlotsOf(pages)|)
  {
    hide SlotsOf;
    NothingFree(maps);
    TakeFree(maps, 1);
    assert SlotsOf(pages) - {} == SlotsOf(pages);
  }

  /** paging_setup: one frame for the directory and one for each slot of the pages
      that it reaches; without them it ends in a panic, and so it does when two
      ranges share a page. */
  method PagingSetup(mmu: Mmu, ranges: seq<BootRange>) returns (r: MapResult)
    requires mmu.Shape() && !mmu.pagingEnabled && mmu.pfa.Valid()
    requires mmu.ram !in mmu.pfa.Repr && mmu !in mmu.pfa.Repr
    requires forall i :: 0 <= i < |ranges| ==> ranges[i].Ok()
    modifies mmu, mmu.ram, mmu.pfa.Repr
    ensures r == if FreeIn(old(mmu.pfa.Maps())) < 1 + |SlotsOf(Reached(ranges))| then OutOfMemory
                 else if PagesApart(ranges) then Mapped
                 else AlreadyMapped
    ensures mmu.pfa.Valid()
    ensures r == Mapped ==> SetUp(mmu, old(mmu.pfa.Maps()), ranges)
  {
    hide FA.Allocator.Valid;
    hide IdentityOnly;
    hide Uniform;
    hide PM.NoFreeRun;
    hide PagesApart;
    hide Mmu.Valid;
    hide Reached;
    hide AllPages;
    hide SlotsOf;
    hide FreeIn;
    hide First;
    ghost var maps := mmu.pfa.Maps();
    NothingFree(maps);
    var phys := DirectoryFrame(mmu.pfa);
    if phys == BAD_PAGE {
      return OutOfMemory;
    }
    AfterDirectory(maps, Reached(ranges));
    AfterDirectory(maps, AllPages(ranges));
    hide Mappable;
    hide MapsAfter;
    hide TakeEach;
    hide Take;
    r := SetupAt(mmu, phys, ranges);
  }

  /** The frame of the directory is the lowest free page. */
  method DirectoryFrame(pfa: FA.Allocator) returns (phys: nat)
    requires pfa.Valid()
    modifies pfa.Repr
    ensures pfa.Valid()
    ensures phys == BAD_PAGE <==> PM.NoFreeRun(old(pfa.Maps()), 1)
    ensures phys != BAD_PAGE ==>
      && Aligned(phys) && phys < TABLE_WINDOW && PageOf(phys) in pfa.live && pfa.live[PageOf(phys)] == 1
      && pfa.Maps() == Take(old(pfa.Maps()), 1)
      && PageOf(phys) == pfa.Firsts()[First(old(pfa.Maps()), 1).0] + First(old(pfa.Maps()), 1).1
  {
    hide FA.Allocator.Valid;
    hide PM.NoRun;
    hide PM.Mark;
    ghost var i0, r0, maps := 0, 0, pfa.Maps();
    phys, r0, i0 := pfa.Alloc(1);
    if phys != BAD_PAGE {
      pfa.LiveManaged(PageOf(phys));
      assert FA.InRam(PageOf(phys));
      assert PM.FirstRun(maps, r0, i0, 1);
      FirstIs(maps, r0, i0, 1);
      pfa.FramePage(r0, i0);
    }
  }

  /** The outcome: sound tables that map exactly the ranges, with the lowest free
      page among the frames of the tables. */
  ghost predicate SetUp(mmu: Mmu, maps: seq<PM.Pages>, ranges: seq<BootRange>)
    requires mmu.Shape() && forall i :: 0 <= i < |ranges| ==> ranges[i].Ok()
    reads mmu, mmu.ram, mmu.pfa, mmu.pfa.Repr
  {
    && mmu.Valid() && mmu.pagingEnabled
    && IdentityOnly(mmu.Contents(), mmu.dir, AllPages(ranges))
    && Uniform(mmu.Contents(), mmu.dir, RW_KERNEL_NOCACHE)
    && 1 + |SlotsOf(AllPages(ranges))| <= FreeIn(maps) && |maps| == |mmu.pfa.regions|
    && mmu.pfa.Maps() == TakeEach(maps, 1 + |SlotsOf(AllPages(ranges))|)
    && mmu.Slots() == SlotsOf(AllPages(ranges))
    && !PM.NoFreeRun(maps, 1)
    && mmu.pfa.Firsts()[First(maps, 1).0] + First(maps, 1).1 in mmu.owned
  }
}
