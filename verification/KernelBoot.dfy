/** mem_init: the boot of the memory stack, end to end (kernel/kernel/init.c). */
module KernelBoot {
  import opened Memory
  import opened PageFlags
  import opened PageTables
  import opened Regions
  import opened PhysMemMap
  import opened MemoryBoot
  import opened PfaLayout
  import opened PfaBoot
  import opened Paging
  import opened PagingBoot
  import opened BootPages
  import opened BootAddresses
  import opened FirstFit
  import opened HeapSteps
  import opened Kmalloc
  import opened Sorting
  import FA = FrameAllocator
  import PM = Pagemap
  import opened Wrappers

  // All but Booted stop the kernel.  DoubleMapping is the panic for a page that
  // two of the boot ranges share.
  datatype BootResult = Booted | NoMemoryMap | NoAllocator | OutOfPages | DoubleMapping

  // What the boot leaves behind: where the memory map and the allocator's
  // metadata are, the pages of the allocator, and the heap before any request.
  datatype Facts = Facts(pmmAddr: nat, meta: nat, metaSize: nat, managed: set<int>, first: Moment)

  /** The page of the allocator that the boot maps, if there is one. */
  ghost function Stray(kernelEnd: nat, managed: set<int>): set<int> {
    if Aligned(kernelEnd) && PageOf(kernelEnd) in managed then {PageOf(kernelEnd)} else {}
  }

  /** Which pages of the allocator the heap will find mapped. */
  lemma ManagedPagesMapped(m: Ram, dir: Frame, managed: set<int>, pages: set<int>, stray: set<int>)
    requires IdentityOnly(m, dir, pages)
    requires forall p :: p in managed ==> (p in pages <==> p in stray) && FA.InRam(p)
    ensures MapsExactly(m, dir, managed, stray)
  {
    forall p | p in managed
      ensures 0 < p < WINDOW_PAGE && Walk(m, dir, p) == if p in stray then Some(p) else None
    {
      assert FA.InRam(p);
      IdentityAt(m, dir, pages, p);
    }
  }

  // --------------------------------------------------------------------------
  // What the boot comes to

  /** Some valid entry has room for the metadata of all of them. */
  ghost predicate HasHost(es: Map32, metaSize: nat) {
    exists h :: Hosts(es, metaSize, h)
  }

  /** The heap before the first request: it is empty, and all pages are free but
      the directory and one page table for each slot of the boot mappings, taken
      from the lowest pages on. */
  ghost predicate IsFirst(m: Moment, spans: seq<Span>, ranges: seq<BootRange>)
    requires forall i :: 0 <= i < |ranges| ==> ranges[i].Ok()
  {
    var maps, slots := FreeMaps(spans), SlotsOf(AllPages(ranges));
    && 1 + |slots| <= FreeIn(maps)
    && m == Moment([], [], map[], TakeEach(maps, 1 + |slots|), FirstPages(spans), slots)
  }

  /** How the boot ends, decided step by step on what the boot loader gives. */
  ghost predicate BootsTo(mbi: Multiboot, ms: seq<MmapEntry>, kernelEnd: nat, r: BootResult, b: Facts)
    requires KERNEL_START < kernelEnd < TABLE_WINDOW
  {
    if !CanReserve(mbi, ms, KERNEL_START, kernelEnd) then r == NoMemoryMap
    else
      var es := BootMap(ms, BootKept(mbi, |ms|, kernelEnd, b.pmmAddr));
      && Located(mbi, ms, kernelEnd, b.pmmAddr)
      && MetaBytes(es) < ADDRESS_SPACE && b.metaSize == PageAlign(MetaBytes(es))
      && if !HasHost(es, b.metaSize) then r == NoAllocator
         else exists h :: Hosts(es, b.metaSize, h) && PagingBootsTo(mbi, ms, kernelEnd, r, b, es, h)
  }

  /** The rest of it, once entry h hosts the allocator's metadata. */
  ghost predicate PagingBootsTo(mbi: Multiboot, ms: seq<MmapEntry>, kernelEnd: nat, r: BootResult, b: Facts,
                                es: Map32, h: nat)
    requires KERNEL_START < kernelEnd < TABLE_WINDOW && h < |es|
  {
    && b.meta == PageAlign(es[h].addr)
    && OwnsMemory(ms, BootKept(mbi, |ms|, kernelEnd, b.pmmAddr), b.meta, b.metaSize, b.managed)
    && PagingOutcome(mbi, kernelEnd, r, b, Spans(es, |es|, h, b.metaSize))
  }

  /** paging_setup takes one page for the directory and one for each slot of the
      pages that it reaches. */
  ghost predicate PagingOutcome(mbi: Multiboot, kernelEnd: nat, r: BootResult, b: Facts, spans: seq<Span>)
    requires KERNEL_START < kernelEnd < TABLE_WINDOW
  {
    var ranges := BootRanges(mbi, KERNEL_START, kernelEnd, b.meta, b.metaSize);
    && (forall i :: 0 <= i < |ranges| ==> ranges[i].Ok())
    && if |b.managed| < 1 + |SlotsOf(Reached(ranges))| then r == OutOfPages
       else if !RangesClear(mbi, KERNEL_START, kernelEnd, b.meta) then r == DoubleMapping
       else r == Booted && IsFirst(b.first, spans, ranges)
  }

  /** What the boot loader gives determines how the boot ends and all that it
      leaves behind. */
  lemma BootUnique(mbi: Multiboot, ms: seq<MmapEntry>, kernelEnd: nat, r: BootResult, b: Facts, q: BootResult, c: Facts)
    requires KERNEL_START < kernelEnd < TABLE_WINDOW
    requires BootsTo(mbi, ms, kernelEnd, r, b) && BootsTo(mbi, ms, kernelEnd, q, c)
    ensures r == q
    ensures r != NoMemoryMap ==> b.pmmAddr == c.pmmAddr && b.metaSize == c.metaSize
    ensures r !in {NoMemoryMap, NoAllocator} ==> b.meta == c.meta && b.managed == c.managed
    ensures r == Booted ==> b == c
  {
    hide CanReserve;
    hide Located;
    hide IsValidRegion;
    hide AlignedLen;
    hide BootMap;
    hide MetaBytes;
    hide PageAlign;
    hide BootKept;
    hide PagingBootsTo;
    if CanReserve(mbi, ms, KERNEL_START, kernelEnd) {
      LocatedUnique(mbi, ms, kernelEnd, b.pmmAddr, c.pmmAddr);
      var es := BootMap(ms, BootKept(mbi, |ms|, kernelEnd, b.pmmAddr));
      if HasHost(es, b.metaSize) {
        var h :| Hosts(es, b.metaSize, h) && PagingBootsTo(mbi, ms, kernelEnd, r, b, es, h);
        var i :| Hosts(es, b.metaSize, i) && PagingBootsTo(mbi, ms, kernelEnd, q, c, es, i);
        HostUnique(es, b.metaSize, h, i);
        PagingUnique(mbi, ms, kernelEnd, r, b, q, c, es, h);
      }
    }
  }

  lemma PagingUnique(mbi: Multiboot, ms: seq<MmapEntry>, kernelEnd: nat, r: BootResult, b: Facts,
                     q: BootResult, c: Facts, es: Map32, h: nat)
    requires KERNEL_START < kernelEnd < TABLE_WINDOW && h < |es|
    requires b.pmmAddr == c.pmmAddr && b.metaSize == c.metaSize
    requires PagingBootsTo(mbi, ms, kernelEnd, r, b, es, h) && PagingBootsTo(mbi, ms, kernelEnd, q, c, es, h)
    ensures r == q && b.meta == c.meta && b.managed == c.managed && (r == Booted ==> b == c)
  {
    hide PageAlign;
    hide RangesClear;
    hide BootRanges;
    hide OwnsMemory;
    hide IsFirst;
    hide BootKept;
    hide Spans;
    hide Reached;
    hide SlotsOf;
    SameMemory(ms, BootKept(mbi, |ms|, kernelEnd, b.pmmAddr), b.meta, b.metaSize, b.managed, c.managed);
    if r == Booted {
      FirstUnique(b.first, c.first, Spans(es, |es|, h, b.metaSize),
                  BootRanges(mbi, KERNEL_START, kernelEnd, b.meta, b.metaSize));
    }
  }

  lemma LocatedUnique(mbi: Multiboot, ms: seq<MmapEntry>, kernelEnd: nat, a: nat, b: nat)
    requires kernelEnd < TABLE_WINDOW && Located(mbi, ms, kernelEnd, a) && Located(mbi, ms, kernelEnd, b)
    ensures a == b
  {
    hide Room;
    hide NoRoom;
    var es, size := BootRegions(mbi, |ms|), PmmSize(|ms|, mbi.HasModule());
    var i :| FoundIn(ms, i, es, kernelEnd, size, a);
    var j :| FoundIn(ms, j, es, kernelEnd, size, b);
    FirstSegment(ms, i, j, es, kernelEnd, size, b);
    FirstSegment(ms, j, i, es, kernelEnd, size, a);
  }

  lemma FirstSegment(ms: seq<MmapEntry>, i: nat, j: nat, es: Entries, kernelEnd: nat, size: nat, x: int)
    requires kernelEnd < TABLE_WINDOW && i < |ms| && j < |ms|
    requires NoRoom(ms[..i], es, kernelEnd, size) && Room(ms[j], es, kernelEnd, size, x)
    ensures i <= j
  {
    hide Room;
    forall k | 0 <= k < i ensures !Room(ms[k], es, kernelEnd, size, x) { assert ms[..i][k] == ms[k]; }
  }

  lemma HostUnique(es: Map32, metaSize: nat, h: nat, i: nat)
    requires Hosts(es, metaSize, h) && Hosts(es, metaSize, i)
    ensures h == i
  {
    hide IsValidRegion;
    hide AlignedLen;
    assert !(h < i) && !(i < h);
  }

  lemma SameMemory(ms: seq<MmapEntry>, kept: seq<Range>, meta: nat, metaSize: nat, a: set<int>, b: set<int>)
    requires OwnsMemory(ms, kept, meta, metaSize, a) && OwnsMemory(ms, kept, meta, metaSize, b)
    ensures a == b
  {
    hide UsablePage;
    forall p ensures p in a <==> p in b {
      assert p in a <==> UsablePage(ms, kept, meta, metaSize, p);
    }
  }

  lemma FirstUnique(m: Moment, n: Moment, spans: seq<Span>, ranges: seq<BootRange>)
    requires forall i :: 0 <= i < |ranges| ==> ranges[i].Ok()
    requires IsFirst(m, spans, ranges) && IsFirst(n, spans, ranges)
    ensures m == n
  {
    hide SlotsOf;
    hide AllPages;
    hide FreeMaps;
    hide FirstPages;
  }

  /** A module that the boot loader puts at a page-aligned end of the kernel makes
      the boot fail, whatever the memory is like. */
  lemma ModuleAtKernelEnd(mbi: Multiboot, ms: seq<MmapEntry>, kernelEnd: nat, r: BootResult, b: Facts)
    requires KERNEL_START < kernelEnd < TABLE_WINDOW && BootsTo(mbi, ms, kernelEnd, r, b)
    requires mbi.HasModule() && mbi.modStart == kernelEnd < mbi.modEnd && Aligned(kernelEnd)
    ensures r != Booted
  {
    KernelLimit(kernelEnd);
    hide CanReserve;
    hide Hosts;
    hide BootMap;
    hide BootRanges;
    hide OwnsMemory;
  }

  /** For instance a module of one page at two megabytes, in 32 megabytes of RAM:
      memory map and module have their places, and it is the mapping that fails. */
  lemma ModuleAtTwoMegabytes(meta: nat)
    ensures var mbi := Multiboot(0x9000, 0x100, true, 0x9100, true, 1, 0x9200, 0x200000, 0x201000);
      var ms := [MmapEntry(0, 0x9f000, AVAILABLE), MmapEntry(0x100000, 0x1f00000, AVAILABLE)];
      && WellFormedMap(ms) && RamFits(multiset(ms)) && StructuresInRam(mbi, |ms|)
      && CanReserve(mbi, ms, KERNEL_START, 0x200000)
      && !RangesClear(mbi, KERNEL_START, 0x200000, meta)
  {
    var mbi := Multiboot(0x9000, 0x100, true, 0x9100, true, 1, 0x9200, 0x200000, 0x201000);
    var low, high := MmapEntry(0, 0x9f000, AVAILABLE), MmapEntry(0x100000, 0x1f00000, AVAILABLE);
    var ms := [low, high];
    assert ms[0] == low && ms[1] == high;
    assert forall m :: m in multiset(ms) ==> m == low || m == high;
    assert Fits(Convert(ms[1]), 0x100000, 0x100000);
    assert Fits(Convert(ms[1]), 0x200000, 0x1000);
    assert PageAlign(0x200001) == 0x201000;
    assert Room(ms[1], BootRegions(mbi, 2), 0x200000, PmmSize(2, true), 0x300000);
  }

  // --------------------------------------------------------------------------
  // mem_init

  lemma FitsMeansStarts(ms: seq<MmapEntry>)
    requires RamFits(multiset(ms))
    ensures forall i :: 0 <= i < |ms| ==> StartsInRam(ms[i])
  {
    forall i | 0 <= i < |ms|
      ensures StartsInRam(ms[i])
    {
      assert ms[i] in multiset(ms);
    }
  }

  /** The stray page is the frame of the directory: it is the lowest page of the
      allocator, and paging_setup takes that one first. */
  lemma StrayIsDirectory(ms: seq<MmapEntry>, kernelEnd: nat, kept: seq<Range>, meta: nat, metaSize: nat,
                         pfa: FA.Allocator, spans: seq<Span>)
    requires kernelEnd < TABLE_WINDOW && KernelFirst(kept) && kept[0].start + kept[0].len == kernelEnd
    requires Starts(pfa, spans) && OwnsMemory(ms, kept, meta, metaSize, pfa.managed)
    ensures Stray(kernelEnd, pfa.managed) != {} ==>
      && !PM.NoFreeRun(FreeMaps(spans), 1)
      && var at := First(FreeMaps(spans), 1);
         at.0 < |pfa.regions| && pfa.Firsts()[at.0] + at.1 == PageOf(kernelEnd)
  {
    hide Starts;
    if Aligned(kernelEnd) && PageOf(kernelEnd) in pfa.managed {
      var q := LowestPage(pfa, spans, PageOf(kernelEnd));
      assert UsablePage(ms, kept, meta, metaSize, q);
      assert Disjoint(q * PAGE_SIZE, PAGE_SIZE, kept[0].start, kept[0].len);
      assert kernelEnd / PAGE_SIZE * PAGE_SIZE == kernelEnd;
    }
  }

  /** mem_init: memory map, frame allocator, paging, and the heap on top.  How it
      ends is determined by what the boot loader gives; when it succeeds, the heap
      is valid and empty and its allocator has every usable page and no other.
      The pages of the allocator that are mapped already are page tables. */
  method MemInit(mbi: Multiboot, mmap: array<MmapEntry>, kernelEnd: nat, ram: array2<Word>)
    returns (r: BootResult, heap: Heap?, pfa: FA.Allocator?, ghost b: Facts)
    requires WellFormedBag(multiset(mmap[..])) && RamFits(multiset(mmap[..]))
    requires StructuresInRam(mbi, mmap.Length) && PmmSize(mmap.Length, true) + PAGE_SIZE <= ADDRESS_SPACE - TABLE_WINDOW
    requires KERNEL_START < kernelEnd < TABLE_WINDOW
    requires ram.Length0 == NB_FRAMES && ram.Length1 == NB_SLOTS
    modifies mmap, ram
    ensures multiset(mmap[..]) == multiset(old(mmap[..]))
    ensures Complete(mbi) ==> SortedBy((m: MmapEntry) => m.addr, mmap[..])
    ensures BootsTo(mbi, mmap[..], kernelEnd, r, b)
    ensures pfa == null <==> r in {NoMemoryMap, NoAllocator}
    ensures pfa != null ==> pfa.managed == b.managed
    ensures r == Booted ==>
      && heap != null && fresh(heap) && fresh(heap.Repr) && fresh(heap.mmu) && fresh(heap.mmu.pfa.Repr)
      && heap.mmu.ram == ram && heap.mmu.pfa == pfa && heap.mmu.pagingEnabled
      && heap.Valid() && heap.live == map[] && heap.mmu.Shape() && heap.Now() == b.first
      && heap.stray == Stray(kernelEnd, pfa.managed) && heap.stray <= heap.mmu.owned
      && (forall p :: p in heap.boot <==> MappedAtBoot(mbi, kernelEnd, b.meta, b.metaSize, p))
      && MapsBoot(heap.mmu.Contents(), heap.mmu.dir, mbi, kernelEnd, b.meta, b.metaSize)
    ensures pfa != null ==>
      forall p :: p in pfa.managed <==> PageIsFree(mbi, mmap[..], kernelEnd, b.pmmAddr, b.meta, b.metaSize, p)
    ensures r != NoMemoryMap ==>
      b.pmmAddr > kernelEnd && ApartFromLoader(mbi, mmap.Length, b.pmmAddr, PmmSize(mmap.Length, mbi.HasModule()))
  {
    hide BootsTo;
    hide PagingBootsTo;
    hide CanReserve;
    hide HasRoomFor;
    hide Located;
    hide Hosts;
    hide HasHost;
    hide BootMap;
    hide BootKept;
    hide KernelFirst;
    hide MetaBytes;
    hide PageAlign;
    hide RangesClear;
    hide BootRanges;
    hide OwnsMemory;
    hide WellPlaced;
    hide IsFirst;
    hide Kempt;
    hide AfterBoot;
    hide WellFormedMap;
    hide WellFormedBag;
    hide RamFits;
    hide SortedBy;
    hide Heap.Valid;
    hide FA.Allocator.Valid;
    hide Heap.Now;
    hide Starts;
    hide Spans;
    hide Stray;
    hide MapsBoot;
    hide MappedAtBoot;
    hide PageIsFree;
    hide ApartFromLoader;
    hide UsablePage;
    hide Reservable;
    heap, pfa, b := null, null, Facts(0, 0, 0, {}, Moment([], [], map[], [], [], {}));
    FitsMeansStarts(mmap[..]);
    var ok, pmm, addr := PhysMemMapInit(mbi, mmap, KERNEL_START, kernelEnd);
    ghost var ms, kept := mmap[..], BootKept(mbi, mmap.Length, kernelEnd, addr);
    if !ok {
      NoMapEnds(mbi, ms, kernelEnd, b);
      return NoMemoryMap, null, null, b;
    }
    ReservedHasRoom(mbi, ms, kernelEnd);
    KeptKernel(mbi, mmap.Length, kernelEnd, addr);
    FitsSorted(ms, old(mmap[..]));
    var allocator, meta, metaSize;
    ghost var hosting;
    ok, allocator, meta, metaSize, hosting := InitAllocator(pmm, ms, kept);
    b := b.(pmmAddr := addr, meta := meta, metaSize := metaSize);
    if !ok {
      NoHostEnds(mbi, ms, kernelEnd, b);
      return NoAllocator, null, null, b;
    }
    pfa := allocator;
    ModuleNotEmpty(mbi, ms, kernelEnd);
    OwnedIsFree(mbi, ms, kernelEnd, addr, meta, metaSize, pfa.managed);
    ghost var es := BootMap(ms, kept);
    HostIs(es, metaSize, hosting);
    ghost var spans := Spans(es, |es|, hosting, metaSize);
    r, heap, b := StartPaging(mbi, ms, kernelEnd, addr, meta, metaSize, ram, pfa, spans);
    PagingEnds(mbi, ms, kernelEnd, r, b, es, hosting);
  }

  lemma ModuleNotEmpty(mbi: Multiboot, ms: seq<MmapEntry>, kernelEnd: nat)
    requires KERNEL_START < kernelEnd < TABLE_WINDOW && CanReserve(mbi, ms, KERNEL_START, kernelEnd)
    ensures mbi.HasModule() ==> mbi.modStart < mbi.modEnd
  {
  }

  lemma NoMapEnds(mbi: Multiboot, ms: seq<MmapEntry>, kernelEnd: nat, b: Facts)
    requires KERNEL_START < kernelEnd < TABLE_WINDOW && !CanReserve(mbi, ms, KERNEL_START, kernelEnd)
    ensures BootsTo(mbi, ms, kernelEnd, NoMemoryMap, b)
  {
  }

  lemma NoHostEnds(mbi: Multiboot, ms: seq<MmapEntry>, kernelEnd: nat, b: Facts)
    requires KERNEL_START < kernelEnd < TABLE_WINDOW && CanReserve(mbi, ms, KERNEL_START, kernelEnd)
    requires Located(mbi, ms, kernelEnd, b.pmmAddr)
    requires var es := BootMap(ms, BootKept(mbi, |ms|, kernelEnd, b.pmmAddr));
      MetaBytes(es) < ADDRESS_SPACE && b.metaSize == PageAlign(MetaBytes(es)) && !HasHost(es, b.metaSize)
    ensures BootsTo(mbi, ms, kernelEnd, NoAllocator, b)
  {
    hide CanReserve;
    hide Located;
  }

  lemma PagingEnds(mbi: Multiboot, ms: seq<MmapEntry>, kernelEnd: nat, r: BootResult, b: Facts, es: Map32, h: nat)
    requires KERNEL_START < kernelEnd < TABLE_WINDOW && CanReserve(mbi, ms, KERNEL_START, kernelEnd)
    requires Located(mbi, ms, kernelEnd, b.pmmAddr) && es == BootMap(ms, BootKept(mbi, |ms|, kernelEnd, b.pmmAddr))
    requires MetaBytes(es) < ADDRESS_SPACE && b.metaSize == PageAlign(MetaBytes(es)) && Hosts(es, b.metaSize, h)
    requires PagingOutcome(mbi, kernelEnd, r, b, Spans(es, |es|, h, b.metaSize))
    requires b.meta == PageAlign(es[h].addr)
    requires OwnsMemory(ms, BootKept(mbi, |ms|, kernelEnd, b.pmmAddr), b.meta, b.metaSize, b.managed)
    ensures BootsTo(mbi, ms, kernelEnd, r, b)
  {
    hide CanReserve;
    hide Located;
    hide OwnsMemory;
    assert PagingBootsTo(mbi, ms, kernelEnd, r, b, es, h);
  }

  lemma HostIs(es: Map32, metaSize: nat, h: nat)
    requires Hosts(es, metaSize, h)
    ensures h < |es|
  {
  }

  lemma ReservedHasRoom(mbi: Multiboot, ms: seq<MmapEntry>, kernelEnd: nat)
    requires KERNEL_START < kernelEnd < TABLE_WINDOW && CanReserve(mbi, ms, KERNEL_START, kernelEnd)
    ensures HasRoomFor(mbi, ms, kernelEnd)
  {
  }

  lemma FitsSorted(ms: seq<MmapEntry>, before: seq<MmapEntry>)
    requires multiset(ms) == multiset(before) && RamFits(multiset(before))
    ensures RamFits(multiset(ms))
  {
  }

  lemma KeptKernel(mbi: Multiboot, nbEntries: nat, kernelEnd: nat, pmmAddr: nat)
    requires KERNEL_START < kernelEnd
    ensures var kept := BootKept(mbi, nbEntries, kernelEnd, pmmAddr);
      && KernelFirst(kept) && kept[0].start + kept[0].len == kernelEnd
      && kept == Kept(mbi, KERNEL_START, kernelEnd, pmmAddr, PmmSize(nbEntries, mbi.HasModule()))
  {
  }

  /** The metadata lies in high memory, and shares no byte with what is kept. */
  ghost predicate WellPlaced(kept: seq<Range>, meta: nat, metaSize: nat) {
    && Aligned(meta) && Aligned(metaSize) && LOW_MEMORY_END <= meta && metaSize > 0 && meta + metaSize <= TABLE_WINDOW
    && forall k :: 0 <= k < |kept| && kept[k].len > 0 ==> Disjoint(meta, metaSize, kept[k].start, kept[k].len)
  }

  /** pfa_init on the map after the reservations. */
  method InitAllocator(pmm: PhysMmap, ghost ms: seq<MmapEntry>, ghost kept: seq<Range>)
    returns (ok: bool, pfa: FA.Allocator, meta: nat, metaSize: nat, ghost hosting: nat)
    requires pmm.Shape() && 4 + pmm.entries.Length * ENTRY_SIZE < 0x400000
    requires pmm.View() == AfterBoot(ms, kept) && Kempt(ms, kept, pmm.View())
    requires WellFormedMap(ms) && RamFits(multiset(ms)) && KernelFirst(kept)
    modifies pmm.entries
    ensures pfa.Valid() && fresh(pfa.Repr) && pfa.live == map[]
    ensures var es := BootMap(ms, kept);
      && MetaBytes(es) < ADDRESS_SPACE && metaSize == PageAlign(MetaBytes(es))
      && (ok <==> HasHost(es, metaSize))
      && (ok ==>
            && Hosts(es, metaSize, hosting) && meta == PageAlign(es[hosting].addr)
            && Starts(pfa, Spans(es, |es|, hosting, metaSize)))
    ensures ok ==>
      OwnsMemory(ms, kept, meta, metaSize, pfa.managed) && WellPlaced(kept, meta, metaSize) && metaSize > 0
  {
    hide ManagesAll;
    hide FA.Allocator.Valid;
    hide MapAfterBoot;
    hide HasType;
    hide Allocatable;
    hide MetaBytes;
    hide AlignedLen;
    hide IsValidRegion;
    hide RamBelowWindow;
    hide Ordered;
    hide NotEmpty;
    hide AfterBoot;
    hide Spans;
    hide Starts;
    hide WellPlaced;
    hide OwnsMemory;
    hide WellFormedMap;
    hide RamFits;
    hide Hosts;
    ghost var es := BootMap(ms, kept);
    RamStaysBelow(ms, es, kept);
    assert forall i :: 0 <= i < pmm.len ==> pmm.entries[i] == es[i];
    MetadataIsSmall(es, pmm.entries.Length);
    ok, pfa, meta, metaSize, hosting := PfaInit(pmm);
    if ok {
      ManagedIsUsable(ms, kept, es, meta, metaSize, pfa.managed);
      MetadataPlaced(ms, kept, es, meta, metaSize, hosting);
    }
  }

  lemma ManagedIsUsable(ms: seq<MmapEntry>, kept: seq<Range>, es: Map32, meta: nat, metaSize: nat, managed: set<int>)
    requires WellFormedMap(ms) && Kempt(ms, kept, es) && KernelFirst(kept) && ManagesAll(es, meta, metaSize, managed)
    ensures OwnsMemory(ms, kept, meta, metaSize, managed)
  {
    hide WellFormedMap;
    hide Kempt;
    hide WholePage;
    hide Holds;
    forall p
      ensures p in managed <==> UsablePage(ms, kept, meta, metaSize, p)
    {
      assert p in managed <==> Manageable(es, meta, metaSize, p);
      PageAfterBoot(ms, kept, es, p);
    }
  }

  lemma MetadataPlaced(ms: seq<MmapEntry>, kept: seq<Range>, es: Map32, meta: nat, metaSize: nat, h: nat)
    requires Kempt(ms, kept, es) && Hosts(es, metaSize, h) && meta == PageAlign(es[h].addr)
    requires MetaBytes(es) + PAGE_SIZE < ADDRESS_SPACE && metaSize == PageAlign(MetaBytes(es))
    requires Aligned(meta) && Aligned(metaSize) && meta + metaSize <= TABLE_WINDOW
    requires RamBelowWindow(es) && forall x :: meta <= x < meta + metaSize ==> HasType(es, x, AVAILABLE)
    ensures WellPlaced(kept, meta, metaSize) && metaSize > 0
  {
    hide Kempt;
    hide HasType;
    MetaInEntry(es, h, metaSize);
    forall k | 0 <= k < |kept| && kept[k].len > 0
      ensures Disjoint(meta, metaSize, kept[k].start, kept[k].len)
    {
      MetadataApart(ms, kept, es, meta, metaSize, k);
    }
  }

  /** paging_setup, and the empty heap over it. */
  method StartPaging(mbi: Multiboot, ghost ms: seq<MmapEntry>, kernelEnd: nat, ghost pmmAddr: nat,
                     meta: nat, metaSize: nat, ram: array2<Word>, pfa: FA.Allocator, ghost spans: seq<Span>)
    returns (r: BootResult, heap: Heap?, ghost b: Facts)
    requires KERNEL_START < kernelEnd < TABLE_WINDOW && StructuresInRam(mbi, |ms|)
    requires WellPlaced(BootKept(mbi, |ms|, kernelEnd, pmmAddr), meta, metaSize)
    requires ram.Length0 == NB_FRAMES && ram.Length1 == NB_SLOTS && ram !in pfa.Repr
    requires Starts(pfa, spans)
    requires OwnsMemory(ms, BootKept(mbi, |ms|, kernelEnd, pmmAddr), meta, metaSize, pfa.managed)
    modifies ram, pfa.Repr
    ensures PagingOutcome(mbi, kernelEnd, r, b, spans) && b.managed == pfa.managed
    ensures b.pmmAddr == pmmAddr && b.meta == meta && b.metaSize == metaSize
    ensures r in {Booted, OutOfPages, DoubleMapping}
    ensures r == Booted ==>
      && heap != null && heap.mmu.Shape() && heap.Now() == b.first && heap.live == map[]
      && fresh(heap) && fresh(heap.Repr) && fresh(heap.mmu) && heap.mmu.ram == ram
      && heap.mmu.pfa == pfa && heap.mmu.pagingEnabled
      && heap.stray == Stray(kernelEnd, pfa.managed) && heap.stray <= heap.mmu.owned
      && (forall p :: p in heap.boot <==> MappedAtBoot(mbi, kernelEnd, meta, metaSize, p))
      && MapsBoot(heap.mmu.Contents(), heap.mmu.dir, mbi, kernelEnd, meta, metaSize)
    ensures r == Booted ==> heap.Valid()
  {
    hide FA.Allocator.Valid;
    hide UsablePage;
    hide OwnsMemory;
    hide PagesApart;
    hide IdentityOnly;
    hide Uniform;
    hide MapsExactly;
    hide Elsewhere;
    hide MapsBoot;
    hide MappedAtBoot;
    hide Sound;
    hide Kept;
    hide BootRanges;
    hide Heap.Valid;
    hide FA.InRam;
    hide RangesClear;
    hide Reached;
    hide AllPages;
    hide SlotsOf;
    hide FreeIn;
    hide FreeMaps;
    hide Starts;
    hide First;
    hide Mmu.Valid;
    heap, b := null, Facts(pmmAddr, meta, metaSize, pfa.managed, Moment([], [], map[], [], [], {}));
    ghost var kept := BootKept(mbi, |ms|, kernelEnd, pmmAddr);
    KeptKernel(mbi, |ms|, kernelEnd, pmmAddr);
    StrayIsDirectory(ms, kernelEnd, kept, meta, metaSize, pfa, spans);
    ManagedCount(pfa, spans);
    var mmu := new Mmu(ram, pfa);
    var ranges := BootRanges(mbi, KERNEL_START, kernelEnd, meta, metaSize);
    RangesOk(mbi, |ms|, KERNEL_START, kernelEnd, meta, metaSize);
    MetadataClear(mbi, |ms|, kernelEnd, pmmAddr, meta, metaSize);
    StartMaps(pfa, spans);
    var m := PagingSetup(mmu, ranges);
    if m != Mapped {
      return if m == AlreadyMapped then DoubleMapping else OutOfPages, null, b;
    }
    ghost var stray := Stray(kernelEnd, pfa.managed);
    ManagedMapped(mbi, ms, kernelEnd, pmmAddr, meta, metaSize, mmu);
    heap := new Heap(mmu, AllPages(ranges), stray);
    r, b := Booted, b.(first := heap.Now());
  }

  lemma StartMaps(pfa: FA.Allocator, spans: seq<Span>)
    requires Starts(pfa, spans)
    ensures pfa.Valid() && pfa.Maps() == FreeMaps(spans) && pfa.Firsts() == FirstPages(spans)
  {
    hide FA.Allocator.Valid;
  }

  lemma MetadataClear(mbi: Multiboot, nbEntries: nat, kernelEnd: nat, pmmAddr: nat, meta: nat, metaSize: nat)
    requires KERNEL_START < kernelEnd < TABLE_WINDOW && StructuresInRam(mbi, nbEntries)
    requires WellPlaced(BootKept(mbi, nbEntries, kernelEnd, pmmAddr), meta, metaSize)
    requires forall i :: 0 <= i < |BootRanges(mbi, KERNEL_START, kernelEnd, meta, metaSize)| ==>
      BootRanges(mbi, KERNEL_START, kernelEnd, meta, metaSize)[i].Ok()
    ensures PagesApart(BootRanges(mbi, KERNEL_START, kernelEnd, meta, metaSize)) <==>
            RangesClear(mbi, KERNEL_START, kernelEnd, meta)
  {
    hide BootRanges;
    hide RangesClear;
    hide PagesApart;
    var kept := BootKept(mbi, nbEntries, kernelEnd, pmmAddr);
    assert Disjoint(meta, metaSize, kept[0].start, kept[0].len);
    if mbi.HasModule() && mbi.modStart < mbi.modEnd {
      assert Disjoint(meta, metaSize, kept[2].start, kept[2].len);
    }
    ClearIff(mbi, KERNEL_START, kernelEnd, meta, metaSize);
  }

  /** Of the allocator's pages only the stray one is mapped. */
  lemma ManagedMapped(mbi: Multiboot, ms: seq<MmapEntry>, kernelEnd: nat, pmmAddr: nat, meta: nat, metaSize: nat,
                      mmu: Mmu)
    requires KERNEL_START < kernelEnd < TABLE_WINDOW && mmu.Valid()
    requires forall i :: 0 <= i < |BootRanges(mbi, KERNEL_START, kernelEnd, meta, metaSize)| ==>
      BootRanges(mbi, KERNEL_START, kernelEnd, meta, metaSize)[i].Ok()
    requires OwnsMemory(ms, BootKept(mbi, |ms|, kernelEnd, pmmAddr), meta, metaSize, mmu.pfa.managed)
    requires IdentityOnly(mmu.Contents(), mmu.dir, AllPages(BootRanges(mbi, KERNEL_START, kernelEnd, meta, metaSize)))
    ensures MapsExactly(mmu.Contents(), mmu.dir, mmu.pfa.managed, Stray(kernelEnd, mmu.pfa.managed))
    ensures var pages := AllPages(BootRanges(mbi, KERNEL_START, kernelEnd, meta, metaSize));
      && Elsewhere(mmu.Contents(), mmu.dir, mmu.pfa.managed, pages)
      && (forall p :: p in pages <==> MappedAtBoot(mbi, kernelEnd, meta, metaSize, p))
      && MapsBoot(mmu.Contents(), mmu.dir, mbi, kernelEnd, meta, metaSize)
  {
    hide FA.Allocator.Valid;
    hide UsablePage;
    hide BootRanges;
    hide AllPages;
    hide IdentityOnly;
    hide Sound;
    hide Kept;
    hide FA.InRam;
    hide MappedAtBoot;
    hide MapsBoot;
    hide Elsewhere;
    var managed := mmu.pfa.managed;
    var pages := AllPages(BootRanges(mbi, KERNEL_START, kernelEnd, meta, metaSize));
    forall p | p in managed
      ensures (p in pages <==> p in Stray(kernelEnd, managed)) && FA.InRam(p)
    {
      UsableMapped(mbi, ms, KERNEL_START, kernelEnd, pmmAddr, PmmSize(|ms|, mbi.HasModule()), meta, metaSize, p);
      mmu.pfa.ManagedRange(p);
    }
    ManagedPagesMapped(mmu.Contents(), mmu.dir, managed, pages, Stray(kernelEnd, managed));
    forall p ensures p in pages <==> MappedAtBoot(mbi, kernelEnd, meta, metaSize, p) {
      PagesByAddress(mbi, kernelEnd, meta, metaSize, p);
    }
    IdentityMapsBoot(mmu.Contents(), mmu.dir, mbi, kernelEnd, meta, metaSize, pages);
    IdentityElsewhere(mmu.Contents(), mmu.dir, managed, pages);
  }

  lemma IdentityElsewhere(m: Ram, dir: Frame, managed: set<int>, pages: set<int>)
    requires IdentityOnly(m, dir, pages)
    ensures Elsewhere(m, dir, managed, pages)
  {
    hide Walk;
  }
}
