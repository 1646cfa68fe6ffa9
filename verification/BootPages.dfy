/** Which pages the boot maps and which ones the frame allocator gets, in terms of
    the boot loader's entries (kernel/kernel/init.c, kernel/mem/paging.c:93-140). */
module BootPages {
  import opened Memory
  import opened Regions
  import opened PhysMemMap
  import opened MemoryBoot
  import opened PfaLayout
  import opened PfaBoot
  import opened PagingBoot

  // Where the kernel is linked (kernel/arch/i386/linker.ld:11-13).
  const KERNEL_START: nat := 0x100000

  const VRAM_START: nat := 0xa0000

  /** RAM that the boot loader reports ends below the page-table window. */
  ghost predicate RamFits(ms: multiset<MmapEntry>) {
    forall m :: m in ms && m.kind == AVAILABLE && m.addr < FOUR_GB ==>
      m.len > 0 && m.addr + SegmentLen(m) <= TABLE_WINDOW
  }

  /** What paging_setup maps of the kernel image. */
  function KernelRange(kernelStart: nat, kernelEnd: nat): BootRange
    requires kernelEnd + 1 < ADDRESS_SPACE
  {
    BootRange(kernelStart, PageAlign(kernelEnd + 1))
  }

  /** Each mapped kernel page holds a byte of the kernel exactly when the end of
      the kernel is not page aligned: otherwise one page too many is mapped. */
  lemma KernelPagesExact(kernelStart: nat, kernelEnd: nat)
    requires Aligned(kernelStart) && kernelStart < kernelEnd < TABLE_WINDOW
    ensures (forall p :: p in Pages(KernelRange(kernelStart, kernelEnd)) ==> p * PAGE_SIZE < kernelEnd)
            <==> !Aligned(kernelEnd)
    ensures Aligned(kernelEnd) ==> PageOf(kernelEnd) in Pages(KernelRange(kernelStart, kernelEnd))
  {
    KernelLimit(kernelEnd);
    hide PageAlign;
    hide PagesIn;
    var pages := Pages(KernelRange(kernelStart, kernelEnd));
    if Aligned(kernelEnd) {
      assert PageOf(kernelEnd) in pages && PageOf(kernelEnd) * PAGE_SIZE == kernelEnd;
    } else {
      forall p | p in pages ensures p * PAGE_SIZE < kernelEnd {
        SamePage(p, kernelEnd);
      }
    }
  }

  lemma KernelLimit(kernelEnd: nat)
    requires kernelEnd < TABLE_WINDOW
    ensures PageAlign(kernelEnd + 1) > kernelEnd && Aligned(PageAlign(kernelEnd + 1))
    ensures PageAlign(kernelEnd + 1) <= kernelEnd + PAGE_SIZE
    ensures Aligned(kernelEnd) <==> PageAlign(kernelEnd + 1) == kernelEnd + PAGE_SIZE
  {
  }

  /** No page starts between the end of the kernel and the next page boundary. */
  lemma SamePage(p: int, kernelEnd: nat)
    requires kernelEnd < TABLE_WINDOW && !Aligned(kernelEnd) && p * PAGE_SIZE < PageAlign(kernelEnd + 1)
    ensures p * PAGE_SIZE < kernelEnd
  {
    var limit := PageAlign(kernelEnd + 1);
    KernelLimit(kernelEnd);
    hide PageAlign;
    assert limit == limit / PAGE_SIZE * PAGE_SIZE;
    assert p < limit / PAGE_SIZE;
  }

  /** The ranges of bootstrap_mapping, pfa_map_metadata and phys_mem_map_map_module. */
  function BootRanges(mbi: Multiboot, kernelStart: nat, kernelEnd: nat, meta: nat, metaSize: nat): seq<BootRange>
    requires kernelEnd + 1 < ADDRESS_SPACE
  {
    [KernelRange(kernelStart, kernelEnd), BootRange(VRAM_START, LOW_MEMORY_END), BootRange(meta, meta + metaSize)] +
    if mbi.HasModule() && mbi.modStart < mbi.modEnd
    then [BootRange(mbi.modStart - mbi.modStart % PAGE_SIZE, mbi.modEnd)] else []
  }

  // --------------------------------------------------------------------------
  // The pages that the allocator gets

  /** The available entry m of the boot loader's has these bytes. */
  predicate Holds(m: MmapEntry, start: int, len: nat) {
    m.kind == AVAILABLE && m.addr < FOUR_GB && m.addr <= start && start + len <= m.addr + SegmentLen(m)
  }

  /** Page p is high memory in one available entry, and meets neither what the
      kernel keeps nor the metadata of the allocator. */
  ghost predicate UsablePage(ms: seq<MmapEntry>, kept: seq<Range>, meta: nat, metaSize: nat, p: int) {
    && LOW_MEMORY_END <= p * PAGE_SIZE
    && (exists i :: 0 <= i < |ms| && Holds(ms[i], p * PAGE_SIZE, PAGE_SIZE))
    && (forall k :: 0 <= k < |kept| ==> Disjoint(p * PAGE_SIZE, PAGE_SIZE, kept[k].start, kept[k].len))
    && Disjoint(p * PAGE_SIZE, PAGE_SIZE, meta, metaSize)
  }

  ghost predicate OwnsMemory(ms: seq<MmapEntry>, kept: seq<Range>, meta: nat, metaSize: nat, managed: set<int>) {
    forall p :: p in managed <==> UsablePage(ms, kept, meta, metaSize, p)
  }

  /** The first range is the kernel's, at the end of low memory. */
  predicate KernelFirst(kept: seq<Range>) {
    kept != [] && kept[0].start == LOW_MEMORY_END && kept[0].len > 0
  }

  /** Addresses and lengths within four gigabytes. */
  ghost predicate Fit32(es: Entries) {
    forall i :: 0 <= i < |es| ==> es[i].addr < ADDRESS_SPACE && es[i].len <= ADDRESS_SPACE
  }

  lemma {:induction false} AddressesFit(ms: seq<MmapEntry>, kept: seq<Range>)
    ensures Fit32(AfterBoot(ms, kept))
    decreases |kept|
  {
    if kept == [] {
      forall i | 0 <= i < |Filled(ms)|
        ensures Filled(ms)[i].addr < ADDRESS_SPACE && Filled(ms)[i].len <= ADDRESS_SPACE
      {
        var k := FilledFrom(ms, i);
      }
    } else {
      AddressesFit(ms, kept[..|kept| - 1]);
      ReservedAddresses(AfterBoot(ms, kept[..|kept| - 1]), kept[|kept| - 1]);
    }
  }

  lemma ReservedAddresses(es: Entries, r: Range)
    requires Fit32(es)
    ensures Fit32(Reserve(es, r))
  {
    if k: nat :| Regions.FirstFit(es, r.start, r.len, k) {
      ReserveIs(es, r, k);
      CarveEntries(es, k, r.start, r.len);
      hide Reserve;
      hide Carve;
      var fs, ps := Reserve(es, r), Pieces(es[k], r.start, r.len);
      PiecesFit(es[k], r.start, r.len);
      hide Pieces;
      forall i | 0 <= i < |fs| ensures fs[i].addr < ADDRESS_SPACE && fs[i].len <= ADDRESS_SPACE {
        if k <= i < k + |ps| {
          assert fs[i] == ps[i - k];
        } else {
          assert fs[i] == es[if i < k then i else i + 1 - |ps|];
        }
      }
    }
  }

  lemma PiecesFit(e: Entry, addr: nat, size: nat)
    requires e.addr < ADDRESS_SPACE && e.len <= ADDRESS_SPACE && Fits(e, addr, size)
    ensures e.addr <= addr && addr + size <= e.End() && Fit32(Pieces(e, addr, size))
  {
    assert addr + size <= e.WrappedEnd() < ADDRESS_SPACE;
  }

  /** The kernel's map after the reservations. */
  ghost function BootMap(ms: seq<MmapEntry>, kept: seq<Range>): Map32 {
    AddressesFit(ms, kept);
    AfterBoot(ms, kept)
  }

  /** A page lies whole in an entry after the reservations exactly when it did in
      one of the boot loader's and no reserved range meets it. */
  lemma PageAfterBoot(ms: seq<MmapEntry>, kept: seq<Range>, es: Map32, p: int)
    requires WellFormedMap(ms) && Kempt(ms, kept, es) && KernelFirst(kept)
    ensures (exists j :: 0 <= j < |es| && WholePage(es[j], p)) <==>
      && LOW_MEMORY_END <= p * PAGE_SIZE
      && (exists i :: 0 <= i < |ms| && Holds(ms[i], p * PAGE_SIZE, PAGE_SIZE))
      && forall k :: 0 <= k < |kept| ==> Disjoint(p * PAGE_SIZE, PAGE_SIZE, kept[k].start, kept[k].len)
  {
    hide WellFormedMap;
    hide Ordered;
    hide NotEmpty;
    hide MapAfterBoot;
    hide WholePage;
    hide Disjoint;
    if j :| 0 <= j < |es| && WholePage(es[j], p) {
      PageOfPiece(ms, kept, es, j, p);
    }
    if i :| 0 <= i < |ms| && Holds(ms[i], p * PAGE_SIZE, PAGE_SIZE) {
      if LOW_MEMORY_END <= p * PAGE_SIZE &&
         forall k :: 0 <= k < |kept| ==> Disjoint(p * PAGE_SIZE, PAGE_SIZE, kept[k].start, kept[k].len) {
        var j := PieceOfPage(ms, kept, es, i, p);
      }
    }
  }

  lemma PageOfPiece(ms: seq<MmapEntry>, kept: seq<Range>, es: Map32, j: nat, p: int)
    requires FromPieces(ms, kept, es) && j < |es| && WholePage(es[j], p)
    ensures LOW_MEMORY_END <= p * PAGE_SIZE
    ensures exists i :: 0 <= i < |ms| && Holds(ms[i], p * PAGE_SIZE, PAGE_SIZE)
    ensures forall k :: 0 <= k < |kept| ==> Disjoint(p * PAGE_SIZE, PAGE_SIZE, kept[k].start, kept[k].len)
  {
    var i :| PieceAt(ms, kept, es[j], i);
    assert Holds(ms[i], p * PAGE_SIZE, PAGE_SIZE);
    assert forall k :: 0 <= k < |kept| ==> Disjoint(es[j].addr, es[j].len, kept[k].start, kept[k].len);
  }

  lemma PieceOfPage(ms: seq<MmapEntry>, kept: seq<Range>, es: Map32, i: nat, p: int) returns (j: nat)
    requires WellFormedMap(ms) && Kempt(ms, kept, es) && KernelFirst(kept) && LOW_MEMORY_END <= p * PAGE_SIZE
    requires i < |ms| && Holds(ms[i], p * PAGE_SIZE, PAGE_SIZE)
    requires forall k :: 0 <= k < |kept| ==> Disjoint(p * PAGE_SIZE, PAGE_SIZE, kept[k].start, kept[k].len)
    ensures j < |es| && WholePage(es[j], p)
  {
    hide Ordered;
    hide NotEmpty;
    var x := p * PAGE_SIZE;
    j := AvailableAt(ms, kept, es, i, x);
    var h :| PieceAt(ms, kept, es[j], h);
    OneHolder(ms, i, h, x);
    assert Disjoint(es[j].addr, es[j].len, kept[0].start, kept[0].len);
    if es[j].End() != Convert(ms[i]).End() {
      var k :| 0 <= k < |kept| && kept[k].start == es[j].End();
      assert Disjoint(x, PAGE_SIZE, kept[k].start, kept[k].len);
    }
  }

  /** An available byte that is not kept is available after the reservations. */
  lemma AvailableAt(ms: seq<MmapEntry>, kept: seq<Range>, es: Map32, i: nat, x: int) returns (j: nat)
    requires MapAfterBoot(ms, es, kept) && i < |ms| && Holds(ms[i], x, PAGE_SIZE)
    requires forall k :: 0 <= k < |kept| ==> Disjoint(x, PAGE_SIZE, kept[k].start, kept[k].len)
    ensures j < |es| && es[j].Covers(x) && es[j].kind == AVAILABLE
  {
    FilledTypes(ms, x, AVAILABLE);
    assert Convert(ms[i]).Covers(x);
    hide Filled;
    assert HasType(Filled(ms), x, AVAILABLE);
    assert !IsKept(kept, x);
    assert HasType(es, x, AVAILABLE);
    j :| 0 <= j < |es| && es[j].Covers(x) && es[j].kind == AVAILABLE;
  }

  lemma OneHolder(ms: seq<MmapEntry>, i: nat, h: nat, x: int)
    requires WellFormedMap(ms) && i < |ms| && h < |ms| && ms[i].addr < FOUR_GB && ms[h].addr < FOUR_GB
    requires Convert(ms[i]).Covers(x) && Convert(ms[h]).Covers(x)
    ensures i == h
  {
  }

  /** After the reservations RAM still ends below the page-table window. */
  lemma RamStaysBelow(ms: seq<MmapEntry>, es: Entries, kept: seq<Range>)
    requires RamFits(multiset(ms)) && FromPieces(ms, kept, es)
    ensures RamBelowWindow(es)
  {
    forall j | 0 <= j < |es| && es[j].kind == AVAILABLE && es[j].len > 0
      ensures es[j].End() <= TABLE_WINDOW
    {
      var i :| PieceAt(ms, kept, es[j], i);
      assert ms[i] in multiset(ms);
    }
  }

  /** The metadata shares no byte with what the kernel keeps. */
  lemma MetadataApart(ms: seq<MmapEntry>, kept: seq<Range>, es: Entries, meta: nat, metaSize: nat, k: nat)
    requires Kempt(ms, kept, es) && forall x :: meta <= x < meta + metaSize ==> HasType(es, x, AVAILABLE)
    requires k < |kept| && kept[k].len > 0 && metaSize > 0
    ensures Disjoint(meta, metaSize, kept[k].start, kept[k].len)
  {
    hide Ordered;
    hide FromPieces;
    hide HasType;
    var x := if meta < kept[k].start then kept[k].start else meta;
    assert kept[k].Has(x) ==> IsKept(kept, x);
    assert IsKept(kept, x) ==> !HasType(es, x, AVAILABLE);
  }

  // --------------------------------------------------------------------------
  // Which pages are mapped at boot

  /** A usable page is among the boot mappings exactly when the kernel ends on a
      page boundary and the page starts there. */
  lemma UsableMapped(mbi: Multiboot, ms: seq<MmapEntry>, kernelStart: nat, kernelEnd: nat,
                     pmmAddr: nat, pmmSize: nat, meta: nat, metaSize: nat, p: int)
    requires Aligned(kernelStart) && kernelStart < kernelEnd < TABLE_WINDOW
    requires forall i :: 0 <= i < |BootRanges(mbi, kernelStart, kernelEnd, meta, metaSize)| ==>
      BootRanges(mbi, kernelStart, kernelEnd, meta, metaSize)[i].Ok()
    requires UsablePage(ms, Kept(mbi, kernelStart, kernelEnd, pmmAddr, pmmSize), meta, metaSize, p)
    ensures p in AllPages(BootRanges(mbi, kernelStart, kernelEnd, meta, metaSize)) <==>
            Aligned(kernelEnd) && p == PageOf(kernelEnd)
  {
    hide PagesIn;
    hide Holds;
    var ranges := BootRanges(mbi, kernelStart, kernelEnd, meta, metaSize);
    var kept := Kept(mbi, kernelStart, kernelEnd, pmmAddr, pmmSize);
    assert Disjoint(p * PAGE_SIZE, PAGE_SIZE, kept[0].start, kept[0].len);
    KernelPage(kernelStart, kernelEnd, p);
    assert p !in Pages(ranges[1]) && p !in Pages(ranges[2]);
    if mbi.HasModule() && mbi.modStart < mbi.modEnd {
      assert Disjoint(p * PAGE_SIZE, PAGE_SIZE, kept[2].start, kept[2].len);
      assert p !in Pages(ranges[3]);
    }
    assert ranges[0] == KernelRange(kernelStart, kernelEnd);
    hide Pages;
    if p in AllPages(ranges) {
      var i :| 0 <= i < |ranges| && p in Pages(ranges[i]);
      assert i == 0;
    }
  }

  /** A page with its first byte outside the kernel is mapped with the kernel
      exactly when it starts at the end of the kernel. */
  lemma KernelPage(kernelStart: nat, kernelEnd: nat, p: int)
    requires Aligned(kernelStart) && kernelStart < kernelEnd < TABLE_WINDOW
    requires !(kernelStart <= p * PAGE_SIZE < kernelEnd)
    ensures p in Pages(KernelRange(kernelStart, kernelEnd)) <==> Aligned(kernelEnd) && p == PageOf(kernelEnd)
  {
    hide PagesIn;
    KernelLimit(kernelEnd);
    if !Aligned(kernelEnd) && p in Pages(KernelRange(kernelStart, kernelEnd)) {
      SamePage(p, kernelEnd);
    }
    hide PageAlign;
  }

  /** The boot ranges share no page: the metadata does not start at a page-aligned
      end of the kernel, and the module, rounded down to a page, is clear of the
      kernel's pages and of the video memory. */
  predicate RangesClear(mbi: Multiboot, kernelStart: nat, kernelEnd: nat, meta: nat)
    requires kernelEnd + 1 < ADDRESS_SPACE
  {
    && !(Aligned(kernelEnd) && meta == kernelEnd)
    && (mbi.HasModule() && mbi.modStart < mbi.modEnd ==>
          var start := mbi.modStart - mbi.modStart % PAGE_SIZE;
          && (mbi.modEnd <= kernelStart || PageAlign(kernelEnd + 1) <= start)
          && (mbi.modEnd <= VRAM_START || LOW_MEMORY_END <= start))
  }

  /** The conditions are about addresses only, and they are exact. */
  lemma ClearIff(mbi: Multiboot, kernelStart: nat, kernelEnd: nat, meta: nat, metaSize: nat)
    requires Aligned(kernelStart) && LOW_MEMORY_END <= kernelStart < kernelEnd < TABLE_WINDOW
    requires Aligned(meta) && LOW_MEMORY_END <= meta && Aligned(metaSize) && metaSize > 0
    requires Disjoint(meta, metaSize, kernelStart, kernelEnd - kernelStart)
    requires mbi.HasModule() && mbi.modStart < mbi.modEnd ==>
      Disjoint(meta, metaSize, mbi.modStart, mbi.modEnd - mbi.modStart)
    requires forall i :: 0 <= i < |BootRanges(mbi, kernelStart, kernelEnd, meta, metaSize)| ==>
      BootRanges(mbi, kernelStart, kernelEnd, meta, metaSize)[i].Ok()
    ensures PagesApart(BootRanges(mbi, kernelStart, kernelEnd, meta, metaSize)) <==>
            RangesClear(mbi, kernelStart, kernelEnd, meta)
  {
    var rs := BootRanges(mbi, kernelStart, kernelEnd, meta, metaSize);
    ApartByLimits(rs);
    KernelPairs(kernelStart, kernelEnd, meta, metaSize);
    if |rs| == 4 {
      ModulePairs(mbi, kernelStart, kernelEnd, meta, metaSize);
    }
    hide LimitsApart;
    hide PagesApart;
    hide PageAlign;
    PairsOf(rs);
  }

  lemma PairsOf(rs: seq<BootRange>)
    requires |rs| in {3, 4}
    ensures (forall i, j :: 0 <= i < j < |rs| ==> LimitsApart(rs[i], rs[j])) <==>
      && LimitsApart(rs[0], rs[1]) && LimitsApart(rs[0], rs[2]) && LimitsApart(rs[1], rs[2])
      && (|rs| == 4 ==> LimitsApart(rs[0], rs[3]) && LimitsApart(rs[1], rs[3]) && LimitsApart(rs[2], rs[3]))
  {
    hide LimitsApart;
  }

  lemma ApartByLimits(rs: seq<BootRange>)
    requires forall i :: 0 <= i < |rs| ==> rs[i].Ok()
    ensures PagesApart(rs) <==> forall i, j :: 0 <= i < j < |rs| ==> LimitsApart(rs[i], rs[j])
  {
    hide PagesIn;
    hide LimitsApart;
    forall i, j | 0 <= i < j < |rs|
      ensures Pages(rs[i]) !! Pages(rs[j]) <==> LimitsApart(rs[i], rs[j])
    {
      PairApart(rs[i], rs[j]);
    }
    hide Pages;
  }

  lemma KernelPairs(kernelStart: nat, kernelEnd: nat, meta: nat, metaSize: nat)
    requires LOW_MEMORY_END <= kernelStart < kernelEnd < TABLE_WINDOW
    requires Aligned(meta) && LOW_MEMORY_END <= meta && metaSize > 0
    requires Disjoint(meta, metaSize, kernelStart, kernelEnd - kernelStart)
    ensures var kernel, vram, data := KernelRange(kernelStart, kernelEnd), BootRange(VRAM_START, LOW_MEMORY_END),
                                      BootRange(meta, meta + metaSize);
      && LimitsApart(kernel, vram) && LimitsApart(vram, data)
      && (LimitsApart(kernel, data) <==> !(Aligned(kernelEnd) && meta == kernelEnd))
  {
    KernelLimit(kernelEnd);
    if kernelEnd <= meta {
      AfterKernel(kernelEnd, meta);
    }
    hide PageAlign;
  }

  lemma ModulePairs(mbi: Multiboot, kernelStart: nat, kernelEnd: nat, meta: nat, metaSize: nat)
    requires kernelStart < kernelEnd < TABLE_WINDOW && mbi.modStart < mbi.modEnd
    requires Aligned(meta) && Aligned(metaSize) && metaSize > 0
    requires Disjoint(meta, metaSize, mbi.modStart, mbi.modEnd - mbi.modStart)
    ensures var start := mbi.modStart - mbi.modStart % PAGE_SIZE;
      var module_ := BootRange(start, mbi.modEnd);
      && LimitsApart(BootRange(meta, meta + metaSize), module_)
      && (LimitsApart(KernelRange(kernelStart, kernelEnd), module_) <==>
            mbi.modEnd <= kernelStart || PageAlign(kernelEnd + 1) <= start)
      && (LimitsApart(BootRange(VRAM_START, LOW_MEMORY_END), module_) <==>
            mbi.modEnd <= VRAM_START || LOW_MEMORY_END <= start)
  {
    KernelLimit(kernelEnd);
    ModuleApart(mbi, meta, metaSize);
    hide PageAlign;
  }

  /** No page boundary lies in both. */
  predicate LimitsApart(a: BootRange, b: BootRange) {
    a.limit <= a.start || b.limit <= b.start || a.limit <= b.start || b.limit <= a.start
  }

  lemma PairApart(a: BootRange, b: BootRange)
    requires a.Ok() && b.Ok()
    ensures Pages(a) !! Pages(b) <==> LimitsApart(a, b)
  {
    hide PagesIn;
    var start := if a.start < b.start then b.start else a.start;
    assert start / PAGE_SIZE * PAGE_SIZE == start;
    assert start / PAGE_SIZE in Pages(a) && start / PAGE_SIZE in Pages(b) <==> !LimitsApart(a, b);
  }

  lemma AfterKernel(kernelEnd: nat, meta: nat)
    requires kernelEnd < TABLE_WINDOW && Aligned(meta) && kernelEnd <= meta
    ensures PageAlign(kernelEnd + 1) <= meta <==> !(Aligned(kernelEnd) && meta == kernelEnd)
  {
  }

  lemma ModuleApart(mbi: Multiboot, meta: nat, metaSize: nat)
    requires Aligned(meta) && Aligned(metaSize) && mbi.modStart <= mbi.modEnd
    requires Disjoint(meta, metaSize, mbi.modStart, mbi.modEnd - mbi.modStart)
    ensures meta + metaSize <= mbi.modStart ==> meta + metaSize <= mbi.modStart - mbi.modStart % PAGE_SIZE
  {
    var m, k, x := meta / PAGE_SIZE, metaSize / PAGE_SIZE, mbi.modStart / PAGE_SIZE;
    assert meta == m * PAGE_SIZE && metaSize == k * PAGE_SIZE;
    assert mbi.modStart - mbi.modStart % PAGE_SIZE == x * PAGE_SIZE;
  }

  lemma RangesOk(mbi: Multiboot, nbEntries: nat, kernelStart: nat, kernelEnd: nat, meta: nat, metaSize: nat)
    requires StructuresInRam(mbi, nbEntries) && Aligned(kernelStart) && kernelStart < kernelEnd < TABLE_WINDOW
    requires Aligned(meta) && meta + metaSize <= TABLE_WINDOW
    ensures var rs := BootRanges(mbi, kernelStart, kernelEnd, meta, metaSize);
      forall i :: 0 <= i < |rs| ==> rs[i].Ok()
  {
    assert PageAlign(kernelEnd + 1) <= TABLE_WINDOW;
  }

  lemma MetadataIsSmall(es: Map32, capacity: nat)
    requires Ordered(es) && |es| <= capacity && 4 + capacity * ENTRY_SIZE < 0x400000
    ensures MetaBytes(es) + PAGE_SIZE < ADDRESS_SPACE
  {
    BodyBytesBound(es);
  }
}
