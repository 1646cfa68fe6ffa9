/** pfa_init: from the memory map to a frame allocator whose frames touch
    nothing but available memory (kernel/mem/page_frame_allocator.c:414-444). */
module PfaBoot {
  import opened Memory
  import opened Regions
  import opened PhysMemMap
  import opened PfaLayout
  import Pagemap
  import opened FirstFit
  import FA = FrameAllocator

  /** RAM lies below the page-table window. */
  ghost predicate RamBelowWindow(es: Entries) {
    forall i :: 0 <= i < |es| && es[i].kind == AVAILABLE && es[i].len > 0 ==> es[i].End() <= TABLE_WINDOW
  }

  /** Every byte of page p is available high memory outside the metadata. */
  ghost predicate Allocatable(es: Entries, meta: nat, metaSize: nat, p: int) {
    && LOW_MEMORY_END <= p * PAGE_SIZE
    && forall x :: p * PAGE_SIZE <= x < (p + 1) * PAGE_SIZE ==>
         HasType(es, x, AVAILABLE) && !(meta <= x < meta + metaSize)
  }

  /** Page p lies in one available entry above low memory. */
  predicate WholePage(e: Entry, p: int) {
    e.kind == AVAILABLE && LOW_MEMORY_END <= e.addr <= p * PAGE_SIZE && (p + 1) * PAGE_SIZE <= e.End()
  }

  predicate Outside(meta: nat, metaSize: nat, p: int) {
    (p + 1) * PAGE_SIZE <= meta || meta + metaSize <= p * PAGE_SIZE
  }

  /** managed has every page that lies whole in an available entry, but for the
      metadata, and no other page. */
  ghost predicate ManagesAll(es: Entries, meta: nat, metaSize: nat, managed: set<int>) {
    forall p :: p in managed <==> Manageable(es, meta, metaSize, p)
  }

  ghost predicate Manageable(es: Entries, meta: nat, metaSize: nat, p: int) {
    Outside(meta, metaSize, p) && exists i :: 0 <= i < |es| && WholePage(es[i], p)
  }

  /** The pages of a laid-out region lie in its entry, after the metadata if it hosts it. */
  lemma RegionInEntry(es: Map32, r: Placed, hosting: nat, pfaSize: nat)
    requires Ordered(es) && RamBelowWindow(es) && Aligned(pfaSize)
    requires hosting < |es| && IsValidRegion(es[hosting]) && AlignedLen(es[hosting]) >= pfaSize
    requires Describes(es, r, hosting, pfaSize)
    ensures var e := es[r.entry];
      && Aligned(r.firstPage) && LOW_MEMORY_END <= e.addr <= r.firstPage
      && r.firstPage + r.nbPages * PAGE_SIZE <= e.End() <= TABLE_WINDOW
      && (r.entry == hosting ==> PageAlign(e.addr) + pfaSize <= r.firstPage)
  {
    ValidRegionPages(es[r.entry]);
  }

  /** Neither a page of the region nor the metadata leaves available memory, and they do not meet. */
  lemma RegionAllocatable(es: Map32, r: Placed, hosting: nat, pfaSize: nat, p: int)
    requires Ordered(es) && RamBelowWindow(es) && Aligned(pfaSize)
    requires hosting < |es| && IsValidRegion(es[hosting]) && AlignedLen(es[hosting]) >= pfaSize
    requires Describes(es, r, hosting, pfaSize)
    requires r.firstPage <= p * PAGE_SIZE && (p + 1) * PAGE_SIZE <= r.firstPage + r.nbPages * PAGE_SIZE
    ensures Allocatable(es, PageAlign(es[hosting].addr), pfaSize, p)
  {
    RegionInEntry(es, r, hosting, pfaSize);
    ValidRegionPages(es[hosting]);
    MetaInEntry(es, hosting, pfaSize);
    forall x | p * PAGE_SIZE <= x < (p + 1) * PAGE_SIZE
      ensures HasType(es, x, AVAILABLE)
    {
      assert es[r.entry].Covers(x);
    }
    assert r.entry < hosting ==> es[r.entry].End() <= es[hosting].addr;
    assert hosting < r.entry ==> es[hosting].End() <= es[r.entry].addr;
  }

  /** A region has exactly the whole pages of its entry outside the metadata. */
  lemma RegionPages(es: Map32, r: Placed, hosting: nat, pfaSize: nat, p: int)
    requires Ordered(es) && RamBelowWindow(es) && Aligned(pfaSize)
    requires hosting < |es| && IsValidRegion(es[hosting]) && AlignedLen(es[hosting]) >= pfaSize
    requires Describes(es, r, hosting, pfaSize)
    ensures r.firstPage <= p * PAGE_SIZE && (p + 1) * PAGE_SIZE <= r.firstPage + r.nbPages * PAGE_SIZE <==>
            WholePage(es[r.entry], p) && Outside(PageAlign(es[hosting].addr), pfaSize, p)
  {
    RegionInEntry(es, r, hosting, pfaSize);
    MetaInEntry(es, hosting, pfaSize);
    EntryPages(es[r.entry], p);
    assert r.entry < hosting ==> es[r.entry].End() <= es[hosting].addr;
    assert hosting < r.entry ==> es[hosting].End() <= es[r.entry].addr;
  }

  /** The whole pages of a valid entry are the NbPages ones from its first page boundary on. */
  lemma EntryPages(e: Entry, p: int)
    requires e.addr < ADDRESS_SPACE && e.End() <= TABLE_WINDOW && IsValidRegion(e)
    ensures WholePage(e, p) <==>
            PageAlign(e.addr) <= p * PAGE_SIZE && (p + 1) * PAGE_SIZE <= PageAlign(e.addr) + NbPages(e) * PAGE_SIZE
  {
    ValidRegionPages(e);
  }

  /** The metadata take four bytes, and for every entry with whole pages twelve
      more and one for each page, whether or not the metadata take that page. */
  lemma MetaBytesOf(es: Map32, e: Entry, first: int, n: nat)
    requires e.addr < ADDRESS_SPACE && e.End() <= TABLE_WINDOW
    requires forall p :: WholePage(e, p) <==> first <= p < first + n
    ensures MetaBytes([]) == 4
    ensures MetaBytes(es + [e]) == MetaBytes(es) + if n == 0 then 0 else 12 + n
  {
    assert (es + [e])[..|es|] == es;
    ValidRegionPages(e);
    if IsValidRegion(e) {
      var p, m := PageAlign(e.addr) / PAGE_SIZE, NbPages(e);
      forall q ensures WholePage(e, q) <==> p <= q < p + m { EntryPages(e, q); }
      SamePages(e, first, n, p, m);
    } else {
      assert !WholePage(e, first);
    }
  }

  lemma SamePages(e: Entry, a: int, m: nat, b: int, n: nat)
    requires forall p :: WholePage(e, p) <==> a <= p < a + m
    requires forall p :: WholePage(e, p) <==> b <= p < b + n
    ensures m == n
  {
    hide WholePage;
    if m > 0 {
      assert WholePage(e, a) && WholePage(e, a + m - 1) && !WholePage(e, a - 1) && !WholePage(e, a + m);
    }
    if n > 0 {
      assert WholePage(e, b) && WholePage(e, b + n - 1);
    }
  }

  lemma MetaInEntry(es: Map32, hosting: nat, pfaSize: nat)
    requires RamBelowWindow(es) && hosting < |es| && IsValidRegion(es[hosting]) && AlignedLen(es[hosting]) >= pfaSize
    ensures es[hosting].addr <= PageAlign(es[hosting].addr)
    ensures PageAlign(es[hosting].addr) + pfaSize <= es[hosting].End() <= TABLE_WINDOW
  {
    ValidRegionPages(es[hosting]);
  }

  ghost predicate Built(r: FA.Region, d: Placed)
    reads r.pagemap
  {
    r.Valid() && r.AllFree() && r.firstPage == d.firstPage && r.nbPages == d.nbPages
  }

  /** The region structures, one for each laid-out region. */
  method BuildRegions(ghost es: Map32, placed: seq<Placed>, ghost hosting: nat, ghost pfaSize: nat)
    returns (regions: seq<FA.Region>)
    requires Ordered(es) && RamBelowWindow(es) && Aligned(pfaSize)
    requires hosting < |es| && IsValidRegion(es[hosting]) && AlignedLen(es[hosting]) >= pfaSize
    requires forall k :: 0 <= k < |placed| ==> Describes(es, placed[k], hosting, pfaSize)
    ensures |regions| == |placed|
    ensures forall k :: 0 <= k < |regions| ==> Built(regions[k], placed[k]) && fresh(regions[k].pagemap)
    ensures forall i, j :: 0 <= i < j < |regions| ==> regions[i].pagemap != regions[j].pagemap
  {
    hide Describes;
    hide Ordered;
    regions := [];
    for k := 0 to |placed|
      invariant |regions| == k
      invariant forall i :: 0 <= i < k ==> Built(regions[i], placed[i]) && fresh(regions[i].pagemap)
      invariant forall i, j :: 0 <= i < j < k ==> regions[i].pagemap != regions[j].pagemap
    {
      RegionInEntry(es, placed[k], hosting, pfaSize);
      var r := new FA.Region(placed[k].firstPage, placed[k].nbPages);
      regions := regions + [r];
    }
  }

  /** Each region ends before the next one begins. */
  ghost predicate Ascending(regions: seq<FA.Region>) {
    forall j, k :: 0 <= j < k < |regions| ==> regions[j].first + regions[j].nbPages <= regions[k].first
  }

  /** Entry h is the first valid one with room for the metadata. */
  ghost predicate Hosts(es: Map32, pfaSize: nat, h: nat) {
    && h < |es| && IsValidRegion(es[h]) && AlignedLen(es[h]) >= pfaSize
    && forall i :: 0 <= i < h ==> !(IsValidRegion(es[i]) && AlignedLen(es[i]) >= pfaSize)
  }

  /** The page maps of regions with nothing allocated. */
  ghost function FreeMaps(spans: seq<Span>): seq<Pagemap.Pages> {
    seq(|spans|, k requires 0 <= k < |spans| => seq(spans[k].nbPages, _ => Pagemap.Free))
  }

  ghost function FirstPages(spans: seq<Span>): seq<nat> {
    seq(|spans|, k requires 0 <= k < |spans| => PageOf(spans[k].firstPage))
  }

  /** The allocator has exactly these regions, all free and in ascending order. */
  ghost predicate Starts(pfa: FA.Allocator, spans: seq<Span>)
    reads pfa, pfa.Repr, set i | 0 <= i < |pfa.regions| :: pfa.regions[i].pagemap
  {
    && pfa.Valid() && pfa.live == map[] && Ascending(pfa.regions)
    && pfa.Maps() == FreeMaps(spans) && pfa.Firsts() == FirstPages(spans)
  }

  lemma BuiltStarts(pfa: FA.Allocator, placed: seq<Placed>, spans: seq<Span>)
    requires pfa.Valid() && pfa.live == map[] && Ascending(pfa.regions) && |pfa.regions| == |placed|
    requires forall k :: 0 <= k < |placed| ==> Built(pfa.regions[k], placed[k])
    requires HasSpans(placed, spans)
    ensures Starts(pfa, spans)
  {
    hide FA.Allocator.Valid;
    forall k | 0 <= k < |spans|
      ensures pfa.Maps()[k] == FreeMaps(spans)[k] && pfa.Firsts()[k] == FirstPages(spans)[k]
    {
      assert Built(pfa.regions[k], placed[k]);
    }
  }

  /** Regions of different entries are apart. */
  lemma RegionsApart(es: Map32, placed: seq<Placed>, hosting: nat, pfaSize: nat, regions: seq<FA.Region>)
    requires Ordered(es) && RamBelowWindow(es) && Aligned(pfaSize)
    requires hosting < |es| && IsValidRegion(es[hosting]) && AlignedLen(es[hosting]) >= pfaSize
    requires |regions| == |placed|
    requires forall k :: 0 <= k < |placed| ==>
      Describes(es, placed[k], hosting, pfaSize) && Built(regions[k], placed[k])
    requires forall j, k :: 0 <= j < k < |placed| ==> placed[j].entry < placed[k].entry
    ensures Ascending(regions)
  {
    forall j, k | 0 <= j < k < |regions|
      ensures regions[j].first + regions[j].nbPages <= regions[k].first
    {
      RegionInEntry(es, placed[j], hosting, pfaSize);
      RegionInEntry(es, placed[k], hosting, pfaSize);
      assert es[placed[j].entry].End() <= es[placed[k].entry].addr;
      assert regions[j].first * PAGE_SIZE == placed[j].firstPage && regions[k].first * PAGE_SIZE == placed[k].firstPage;
    }
  }

  /** pfa_init.  Fails exactly when no valid region can host the metadata;
      otherwise the allocator has the spans of the entries, all free. */
  method PfaInit(pmm: PhysMmap) returns (ok: bool, pfa: FA.Allocator, meta: nat, metaSize: nat, ghost hosting: nat)
    requires pmm.Shape() && forall i :: 0 <= i < pmm.len ==> pmm.entries[i].addr < ADDRESS_SPACE
    requires Ordered(pmm.View()) && RamBelowWindow(pmm.View())
    requires MetaBytes(pmm.View()) + PAGE_SIZE < ADDRESS_SPACE
    modifies pmm.entries
    ensures metaSize == PageAlign(MetaBytes(old(pmm.View())))
    ensures ok <==> exists h :: Hosts(old(pmm.View()), metaSize, h)
    ensures pfa.Valid() && fresh(pfa.Repr) && pfa.live == map[]
    ensures ok ==>
      && Hosts(old(pmm.View()), metaSize, hosting) && meta == PageAlign(old(pmm.View())[hosting].addr)
      && Starts(pfa, Spans(old(pmm.View()), |old(pmm.View())|, hosting, metaSize))
    ensures ok ==> Aligned(meta) && Aligned(metaSize) && meta + metaSize <= TABLE_WINDOW
    ensures ok ==> forall x :: meta <= x < meta + metaSize ==> HasType(old(pmm.View()), x, AVAILABLE)
    ensures ok ==> forall p :: p in pfa.managed ==> Allocatable(old(pmm.View()), meta, metaSize, p)
    ensures ok ==> ManagesAll(old(pmm.View()), meta, metaSize, pfa.managed)
  {
    hide IsValidRegion;
    hide AlignedLen;
    hide Describes;
    hide LaidOut;
    hide Ordered;
    hide HasType;
    hide Allocatable;
    hide MetaBytes;
    hide RamBelowWindow;
    ghost var es: Map32 := pmm.View();
    var host;
    metaSize := PfaMetaSize(pmm.entries[..pmm.len]);
    host, meta := FindHostingRegion(pmm.entries[..pmm.len], metaSize);
    hosting := host;
    if host == pmm.len {
      NoHosts(es, metaSize);
      pfa := new FA.Allocator([]);
      return false, pfa, meta, metaSize, hosting;
    }
    assert Hosts(es, metaSize, host);
    pfa := BuildAllocator(pmm, es, metaSize, host);
    ok := true;
  }

  lemma NoHosts(es: Map32, pfaSize: nat)
    requires forall i :: 0 <= i < |es| ==> !(IsValidRegion(es[i]) && AlignedLen(es[i]) >= pfaSize)
    ensures !exists h :: Hosts(es, pfaSize, h)
  {
    hide IsValidRegion;
    hide AlignedLen;
  }

  /** The metadata and the regions, once there is a host. */
  method BuildAllocator(pmm: PhysMmap, ghost es: Map32, metaSize: nat, hosting: nat) returns (pfa: FA.Allocator)
    requires pmm.Shape() && es == pmm.View() && Ordered(es) && RamBelowWindow(es)
    requires Aligned(metaSize) && MetaBytes(es) <= metaSize && Hosts(es, metaSize, hosting)
    modifies pmm.entries
    ensures fresh(pfa.Repr) && Starts(pfa, Spans(es, |es|, hosting, metaSize))
    ensures var meta := PageAlign(es[hosting].addr);
      && meta + metaSize <= TABLE_WINDOW
      && (forall x :: meta <= x < meta + metaSize ==> HasType(es, x, AVAILABLE))
      && (forall p :: p in pfa.managed ==> Allocatable(es, meta, metaSize, p))
      && ManagesAll(es, meta, metaSize, pfa.managed)
  {
    hide IsValidRegion;
    hide AlignedLen;
    hide Describes;
    hide LaidOut;
    hide Ordered;
    hide HasType;
    hide Allocatable;
    hide MetaBytes;
    hide RamBelowWindow;
    hide Starts;
    hide Spans;
    hide HasRegion;
    hide HasSpans;
    assert forall i :: 0 <= i < pmm.len ==> pmm.entries[i] == es[i];
    var cells, placed, next := ReserveRegions(pmm, metaSize, hosting);
    LaidOutRegions(es, cells[..], placed, next, hosting, metaSize);
    var regions := BuildRegions(es, placed, hosting, metaSize);
    RegionsApart(es, placed, hosting, metaSize, regions);
    pfa := new FA.Allocator(regions);
    PlacedSpans(es, placed, |es|, hosting, metaSize);
    BuiltStarts(pfa, placed, Spans(es, |es|, hosting, metaSize));
    MetaAvailable(es, hosting, metaSize);
    ManagedAllocatable(es, placed, hosting, metaSize, pfa);
    ManagedExactly(es, placed, hosting, metaSize, pfa);
  }

  lemma LaidOutRegions(es: Map32, cells: seq<Cell>, placed: seq<Placed>, next: nat, hosting: nat, pfaSize: nat)
    requires LaidOut(es, cells, placed, |es|, next, hosting, pfaSize)
    ensures forall k :: 0 <= k < |placed| ==> Describes(es, placed[k], hosting, pfaSize) && placed[k].entry < |es|
    ensures forall j, k :: 0 <= j < k < |placed| ==> placed[j].entry < placed[k].entry
    ensures forall e :: 0 <= e < |es| && IsValidRegion(es[e]) ==> HasRegion(placed, e)
  {
    hide HasRegion;
  }

  lemma MetaAvailable(es: Map32, hosting: nat, pfaSize: nat)
    requires RamBelowWindow(es) && hosting < |es| && IsValidRegion(es[hosting]) && AlignedLen(es[hosting]) >= pfaSize
    ensures PageAlign(es[hosting].addr) + pfaSize <= TABLE_WINDOW
    ensures forall x :: PageAlign(es[hosting].addr) <= x < PageAlign(es[hosting].addr) + pfaSize ==>
      HasType(es, x, AVAILABLE)
  {
    MetaInEntry(es, hosting, pfaSize);
    var start := PageAlign(es[hosting].addr);
    assert forall x :: start <= x < start + pfaSize ==> es[hosting].Covers(x);
  }

  lemma RegionBytes(r: FA.Region, d: Placed, p: int)
    requires Built(r, d) && r.Contains(p)
    ensures d.firstPage <= p * PAGE_SIZE && (p + 1) * PAGE_SIZE <= d.firstPage + d.nbPages * PAGE_SIZE
  {
  }

  lemma ManagedAllocatable(es: Map32, placed: seq<Placed>, hosting: nat, pfaSize: nat, pfa: FA.Allocator)
    requires Ordered(es) && RamBelowWindow(es) && Aligned(pfaSize)
    requires hosting < |es| && IsValidRegion(es[hosting]) && AlignedLen(es[hosting]) >= pfaSize
    requires pfa.Separate() && |pfa.regions| == |placed|
    requires forall k :: 0 <= k < |placed| ==>
      Describes(es, placed[k], hosting, pfaSize) && Built(pfa.regions[k], placed[k])
    ensures forall p :: p in pfa.managed ==> Allocatable(es, PageAlign(es[hosting].addr), pfaSize, p)
  {
    hide Allocatable;
    hide Ordered;
    hide RamBelowWindow;
    hide IsValidRegion;
    hide AlignedLen;
    hide Describes;
    forall p | p in pfa.managed
      ensures Allocatable(es, PageAlign(es[hosting].addr), pfaSize, p)
    {
      var k :| 0 <= k < |pfa.regions| && pfa.regions[k].Contains(p);
      RegionBytes(pfa.regions[k], placed[k], p);
      RegionAllocatable(es, placed[k], hosting, pfaSize, p);
    }
  }

  lemma ManagedExactly(es: Map32, placed: seq<Placed>, hosting: nat, pfaSize: nat, pfa: FA.Allocator)
    requires Ordered(es) && RamBelowWindow(es) && Aligned(pfaSize)
    requires hosting < |es| && IsValidRegion(es[hosting]) && AlignedLen(es[hosting]) >= pfaSize
    requires pfa.Separate() && |pfa.regions| == |placed|
    requires forall k :: 0 <= k < |placed| ==>
      Describes(es, placed[k], hosting, pfaSize) && Built(pfa.regions[k], placed[k])
    requires forall e :: 0 <= e < |es| && IsValidRegion(es[e]) ==> HasRegion(placed, e)
    ensures ManagesAll(es, PageAlign(es[hosting].addr), pfaSize, pfa.managed)
  {
    hide Outside;
    hide WholePage;
    hide IsValidRegion;
    hide AlignedLen;
    hide Describes;
    hide Ordered;
    hide RamBelowWindow;
    var meta := PageAlign(es[hosting].addr);
    forall p
      ensures p in pfa.managed <==> Manageable(es, meta, pfaSize, p)
    {
      if k :| 0 <= k < |pfa.regions| && pfa.regions[k].Contains(p) {
        RegionHas(es, pfa.regions[k], placed[k], hosting, pfaSize, p);
        EntryOf(es, placed[k], hosting, pfaSize);
      }
      if Manageable(es, meta, pfaSize, p) {
        var e :| 0 <= e < |es| && WholePage(es[e], p);
        WholePageValid(es, e, p);
        assert HasRegion(placed, e);
        var k :| 0 <= k < |placed| && placed[k].entry == e;
        RegionHas(es, pfa.regions[k], placed[k], hosting, pfaSize, p);
      }
    }
  }

  lemma EntryOf(es: Map32, d: Placed, hosting: nat, pfaSize: nat)
    requires Describes(es, d, hosting, pfaSize)
    ensures d.entry < |es|
  {
  }

  lemma RegionHas(es: Map32, r: FA.Region, d: Placed, hosting: nat, pfaSize: nat, p: int)
    requires Ordered(es) && RamBelowWindow(es) && Aligned(pfaSize)
    requires hosting < |es| && IsValidRegion(es[hosting]) && AlignedLen(es[hosting]) >= pfaSize
    requires Describes(es, d, hosting, pfaSize) && Built(r, d)
    ensures r.Contains(p) <==> WholePage(es[d.entry], p) && Outside(PageAlign(es[hosting].addr), pfaSize, p)
  {
    hide WholePage;
    hide Outside;
    hide IsValidRegion;
    hide AlignedLen;
    RegionPages(es, d, hosting, pfaSize, p);
    assert r.first * PAGE_SIZE == d.firstPage;
  }

  lemma WholePageValid(es: Map32, e: nat, p: int)
    requires RamBelowWindow(es) && e < |es| && WholePage(es[e], p)
    ensures IsValidRegion(es[e])
  {
    ValidRegionPages(es[e]);
  }

  /** The metadata of a map within four gigabytes is small. */
  lemma {:induction false} BodyBytesBound(es: Map32)
    requires Ordered(es)
    ensures NbValid(es) <= |es|
    ensures BodyBytes(es) <= REGION_HEADER * |es| + (if es == [] then 0 else es[|es| - 1].End() / PAGE_SIZE)
  {
    if es != [] {
      var n := |es| - 1;
      BodyBytesBound(es[..n]);
      if n > 0 { assert es[n - 1].End() <= es[n].addr; }
      assert AlignedLen(es[n]) <= es[n].len;
    }
  }

  // --------------------------------------------------------------------------
  // Counting the pages

  lemma {:induction false} AllFreePages(n: nat)
    ensures FreePages(seq(n, _ => Pagemap.Free)) == n
  {
    if n > 0 {
      AllFreePages(n - 1);
      assert seq(n, _ => Pagemap.Free)[..n - 1] == seq(n - 1, _ => Pagemap.Free);
    }
  }

  /** The pages of the first n regions. */
  ghost function PagesOf(regions: seq<FA.Region>, n: nat): set<int>
    requires n <= |regions|
  {
    if n == 0 then {} else PagesOf(regions, n - 1) + PageRange(regions[n - 1].first, regions[n - 1].nbPages)
  }

  lemma {:induction false} InPagesOf(regions: seq<FA.Region>, n: nat, p: int)
    requires n <= |regions|
    ensures p in PagesOf(regions, n) <==> exists i :: 0 <= i < n && regions[i].Contains(p)
    decreases n
  {
    hide PageRange;
    hide FA.Region.Contains;
    if n > 0 {
      InPagesOf(regions, n - 1, p);
      PagesOfLast(regions, n, p);
    }
  }

  lemma PagesOfLast(regions: seq<FA.Region>, n: nat, p: int)
    requires 0 < n <= |regions|
    ensures p in PagesOf(regions, n) <==> p in PagesOf(regions, n - 1) || regions[n - 1].Contains(p)
  {
  }

  lemma {:induction false} PagesOfCount(regions: seq<FA.Region>, spans: seq<Span>, n: nat)
    requires Ascending(regions) && n <= |regions| == |spans|
    requires forall k :: 0 <= k < n ==> regions[k].nbPages == spans[k].nbPages
    ensures |PagesOf(regions, n)| == FreeIn(FreeMaps(spans)[..n])
    decreases n
  {
    hide FreeMaps;
    hide Ascending;
    hide FreeIn;
    hide PageRange;
    if n > 0 {
      var before, more := PagesOf(regions, n - 1), PageRange(regions[n - 1].first, regions[n - 1].nbPages);
      assert PagesOf(regions, n) == before + more;
      hide PagesOf;
      PagesOfCount(regions, spans, n - 1);
      PagesAbove(regions, n - 1);
      DisjointSum(before, more);
      FreeMapsStep(spans, n);
    } else {
      NoMaps(FreeMaps(spans));
    }
  }

  lemma DisjointSum(a: set<int>, b: set<int>)
    requires a !! b
    ensures |a + b| == |a| + |b|
  {
  }

  lemma NoMaps(maps: seq<Pagemap.Pages>)
    ensures FreeIn(maps[..0]) == 0
  {
  }

  lemma FreeMapsStep(spans: seq<Span>, n: nat)
    requires 0 < n <= |spans|
    ensures FreeIn(FreeMaps(spans)[..n]) == FreeIn(FreeMaps(spans)[..n - 1]) + spans[n - 1].nbPages
  {
    var maps := FreeMaps(spans);
    AllFreePages(spans[n - 1].nbPages);
    assert maps[..n][..n - 1] == maps[..n - 1];
  }

  /** A region has no page of the regions before it. */
  lemma PagesAbove(regions: seq<FA.Region>, n: nat)
    requires Ascending(regions) && n < |regions|
    ensures PagesOf(regions, n) !! PageRange(regions[n].first, regions[n].nbPages)
  {
    hide PagesOf;
    hide PageRange;
    forall p | p in PagesOf(regions, n)
      ensures p < regions[n].first
    {
      InPagesOf(regions, n, p);
      var i :| 0 <= i < n && regions[i].Contains(p);
    }
  }

  lemma RegionLength(pfa: FA.Allocator, spans: seq<Span>, k: nat)
    requires Starts(pfa, spans) && k < |pfa.regions|
    ensures |spans| == |pfa.regions| && pfa.regions[k].nbPages == spans[k].nbPages
  {
    hide FA.Allocator.Valid;
    hide FA.Allocator.Firsts;
    hide Ascending;
    pfa.MapLength(k);
    assert |pfa.Maps()| == |FreeMaps(spans)|;
    assert pfa.Maps()[k] == FreeMaps(spans)[k];
  }

  /** The free pages at the start are the managed pages. */
  lemma ManagedCount(pfa: FA.Allocator, spans: seq<Span>)
    requires Starts(pfa, spans)
    ensures |pfa.managed| == FreeIn(FreeMaps(spans))
  {
    hide FreeMaps;
    hide PagesOf;
    hide FA.Allocator.Valid;
    hide FA.Region.Contains;
    hide FreeIn;
    var n := |pfa.regions|;
    forall k | 0 <= k < n ensures |spans| == n && pfa.regions[k].nbPages == spans[k].nbPages {
      RegionLength(pfa, spans, k);
    }
    SameLength(pfa, spans);
    PagesOfCount(pfa.regions, spans, n);
    assert FreeMaps(spans)[..n] == FreeMaps(spans);
    forall p ensures p in pfa.managed <==> p in PagesOf(pfa.regions, n) {
      pfa.ManagedIs(p);
      InPagesOf(pfa.regions, n, p);
    }
    assert PagesOf(pfa.regions, n) == pfa.managed;
  }

  lemma SameLength(pfa: FA.Allocator, spans: seq<Span>)
    requires Starts(pfa, spans)
    ensures |pfa.regions| == |spans| == |FreeMaps(spans)|
  {
    hide FA.Allocator.Valid;
    assert |pfa.Maps()| == |FreeMaps(spans)|;
  }

  /** The page that first fit takes first is the lowest managed page. */
  lemma LowestPage(pfa: FA.Allocator, spans: seq<Span>, p: int) returns (q: int)
    requires Starts(pfa, spans) && p in pfa.managed
    ensures !Pagemap.NoFreeRun(FreeMaps(spans), 1) && q in pfa.managed && q <= p
    ensures var at := First(FreeMaps(spans), 1); at.0 < |pfa.regions| && q == pfa.Firsts()[at.0] + at.1
  {
    hide FA.Allocator.Valid;
    hide Pagemap.NoRun;
    pfa.ManagedIs(p);
    var i :| 0 <= i < |pfa.regions| && pfa.regions[i].Contains(p);
    SameLength(pfa, spans);
    RegionLength(pfa, spans, i);
    FreeAt(spans, i, p - pfa.regions[i].first);
    var maps := FreeMaps(spans);
    hide FreeMaps;
    var at := First(maps, 1);
    RegionLength(pfa, spans, at.0);
    q := pfa.Firsts()[at.0] + at.1;
    assert pfa.regions[at.0].Contains(q);
    pfa.ManagedIs(q);
    if at.0 < i {
      assert pfa.regions[at.0].first + pfa.regions[at.0].nbPages <= pfa.regions[i].first;
    }
  }

  /** First fit is not above a page of the regions. */
  lemma FreeAt(spans: seq<Span>, i: nat, j: nat)
    requires i < |spans| && j < spans[i].nbPages
    ensures !Pagemap.NoFreeRun(FreeMaps(spans), 1)
    ensures var at := First(FreeMaps(spans), 1); at.0 < i || (at.0 == i && at.1 <= j)
    ensures forall k :: 0 <= k < |spans| ==> |FreeMaps(spans)[k]| == spans[k].nbPages
  {
    var maps := FreeMaps(spans);
    var run: Pagemap.Pages := maps[i];
    assert run[j].Free?;
    assert Pagemap.FreeRun(run, j, 1);
    var at := First(maps, 1);
    forall r | 0 <= r < at.0 ensures Pagemap.NoRun(maps[r], 1) { assert maps[..at.0][r] == maps[r]; }
  }
}
