/** Which regions the frame allocator manages, and the metadata that it lays
    out by hand inside one of them (kernel/mem/page_frame_allocator.c). */
module PfaLayout {
  import opened Memory
  import opened Regions
  import opened PhysMemMap

  const META_HEADER: nat := 4     // sizeof(struct pfa_meta)
  const REGION_HEADER: nat := 8   // sizeof(struct pfa_region)
  const POINTER_SIZE: nat := 4

  /** Bytes of the entry from its first page boundary on; only the entries that
      is_valid_region rejects have no such boundary. */
  function AlignedLen(e: Entry): nat
    requires e.addr < ADDRESS_SPACE
  {
    if e.addr % PAGE_SIZE != 0 && 0 <= PageAlign(e.addr) - e.addr <= e.len then e.len - (PageAlign(e.addr) - e.addr)
    else e.len
  }

  /** is_valid_region, with its 32-bit sums. */
  predicate IsValidRegion(e: Entry)
    requires e.addr < ADDRESS_SPACE
  {
    && e.kind == AVAILABLE
    && e.addr >= LOW_MEMORY_END
    && (e.addr % PAGE_SIZE != 0 ==> PageAlign(e.addr) >= e.addr && PageAlign(e.addr) < Sum32(e.addr, e.len))
    && AlignedLen(e) / PAGE_SIZE > 0
  }

  function NbPages(e: Entry): nat
    requires e.addr < ADDRESS_SPACE
  {
    AlignedLen(e) / PAGE_SIZE
  }

  /** An entry below the page-table window is valid exactly when it is available
      high memory that contains a whole aligned page, and its pages lie inside it. */
  lemma ValidRegionPages(e: Entry)
    requires e.End() <= TABLE_WINDOW
    ensures IsValidRegion(e) <==>
      e.kind == AVAILABLE && e.addr >= LOW_MEMORY_END && PageAlign(e.addr) + PAGE_SIZE <= e.End()
    ensures IsValidRegion(e) ==>
      e.addr <= PageAlign(e.addr) && PageAlign(e.addr) + NbPages(e) * PAGE_SIZE <= e.End()
  {
  }

  // Entries of the map, each of which starts at a 32-bit address.
  type Map32 = es: Entries | forall i :: 0 <= i < |es| ==> es[i].addr < ADDRESS_SPACE

  function NbValid(es: Map32): nat {
    if es == [] then 0 else NbValid(es[..|es| - 1]) + if IsValidRegion(es[|es| - 1]) then 1 else 0
  }

  /** Bytes of headers and page maps of the valid entries. */
  function BodyBytes(es: Map32): nat {
    if es == [] then 0
    else BodyBytes(es[..|es| - 1]) + if IsValidRegion(es[|es| - 1]) then REGION_HEADER + NbPages(es[|es| - 1]) else 0
  }

  function MetaBytes(es: Map32): nat {
    META_HEADER + NbValid(es) * POINTER_SIZE + BodyBytes(es)
  }

  lemma {:induction false} SumsMonotone(es: Map32, i: nat)
    requires i <= |es|
    ensures NbValid(es[..i]) <= NbValid(es) && BodyBytes(es[..i]) <= BodyBytes(es)
    decreases |es|
  {
    if i == |es| {
      assert es[..i] == es;
    } else {
      SumsMonotone(es[..|es| - 1], i);
      assert es[..|es| - 1][..i] == es[..i];
    }
  }

  lemma SumsStep(es: Map32, i: nat)
    requires i < |es|
    ensures NbValid(es[..i + 1]) == NbValid(es[..i]) + if IsValidRegion(es[i]) then 1 else 0
    ensures BodyBytes(es[..i + 1]) ==
            BodyBytes(es[..i]) + if IsValidRegion(es[i]) then REGION_HEADER + NbPages(es[i]) else 0
  {
    assert es[..i + 1][..i] == es[..i];
  }

  /** pfa_meta_size. */
  method PfaMetaSize(es: Map32) returns (size: nat)
    requires MetaBytes(es) + PAGE_SIZE < ADDRESS_SPACE
    ensures size == PageAlign(MetaBytes(es))
  {
    size := META_HEADER;
    for i := 0 to |es|
      invariant size == META_HEADER + NbValid(es[..i]) * POINTER_SIZE + BodyBytes(es[..i])
    {
      SumsStep(es, i);
      if IsValidRegion(es[i]) {
        size := size + POINTER_SIZE + REGION_HEADER + NbPages(es[i]);
      }
    }
    assert es[..|es|] == es;
    size := PageAlign(size);
  }

  /** find_hosting_region: the first valid entry with room for the metadata. */
  method FindHostingRegion(es: Map32, pfaSize: nat) returns (region: nat, pfa: nat)
    ensures region <= |es|
    ensures region < |es| ==>
      IsValidRegion(es[region]) && AlignedLen(es[region]) >= pfaSize && pfa == PageAlign(es[region].addr)
    ensures forall i :: 0 <= i < region ==> !(IsValidRegion(es[i]) && AlignedLen(es[i]) >= pfaSize)
  {
    for i := 0 to |es|
      invariant forall k :: 0 <= k < i ==> !(IsValidRegion(es[k]) && AlignedLen(es[k]) >= pfaSize)
    {
      if IsValidRegion(es[i]) && AlignedLen(es[i]) >= pfaSize {
        return i, PageAlign(es[i].addr);
      }
    }
    return |es|, 0;
  }

  // --------------------------------------------------------------------------
  // reserve_regions: the metadata byte by byte

  // What a metadata byte holds: which field, of which region.
  datatype Cell =
    | Zero
    | NbRegions(count: nat)
    | Pointer(region: nat)
    | Header(region: nat)
    | PageByte(region: nat, page: nat)

  // A region as laid out: its entry, where its header is, its pages.
  datatype Placed = Placed(entry: nat, offset: nat, firstPage: nat, nbPages: nat) {
    function End(): nat { offset + REGION_HEADER + nbPages }
  }

  ghost predicate CellsAre(cells: seq<Cell>, lo: nat, n: nat, c: Cell) {
    lo + n <= |cells| && forall b :: lo <= b < lo + n ==> cells[b] == c
  }

  ghost predicate PageBytesAre(cells: seq<Cell>, lo: nat, n: nat, region: nat) {
    lo + n <= |cells| && forall b :: lo <= b < lo + n ==> cells[b] == PageByte(region, b - lo)
  }

  /** The pointer, the header and the page map of region k are all there. */
  ghost predicate Intact(cells: seq<Cell>, r: Placed, k: nat) {
    && CellsAre(cells, META_HEADER + k * POINTER_SIZE, POINTER_SIZE, Pointer(k))
    && CellsAre(cells, r.offset, REGION_HEADER, Header(k))
    && PageBytesAre(cells, r.offset + REGION_HEADER, r.nbPages, k)
  }

  method WriteField(cells: array<Cell>, lo: nat, n: nat, c: Cell)
    requires lo + n <= cells.Length
    modifies cells
    ensures forall b :: 0 <= b < cells.Length ==> cells[b] == if lo <= b < lo + n then c else old(cells[b])
  {
    for i := lo to lo + n
      invariant forall b :: 0 <= b < cells.Length ==> cells[b] == if lo <= b < i then c else old(cells[b])
    {
      cells[i] := c;
    }
  }

  /** init_pfa_region: the header and one free byte for every page. */
  method InitPfaRegion(cells: array<Cell>, offset: nat, nbPages: nat, k: nat)
    requires offset + REGION_HEADER + nbPages <= cells.Length
    modifies cells
    ensures forall b :: 0 <= b < cells.Length && !(offset <= b < offset + REGION_HEADER + nbPages) ==>
      cells[b] == old(cells[b])
    ensures CellsAre(cells[..], offset, REGION_HEADER, Header(k))
    ensures PageBytesAre(cells[..], offset + REGION_HEADER, nbPages, k)
  {
    WriteField(cells, offset, REGION_HEADER, Header(k));
    var pagemap := offset + REGION_HEADER;
    for page := 0 to nbPages
      invariant forall b :: 0 <= b < cells.Length && !(offset <= b < pagemap + page) ==> cells[b] == old(cells[b])
      invariant CellsAre(cells[..], offset, REGION_HEADER, Header(k))
      invariant PageBytesAre(cells[..], pagemap, page, k)
    {
      cells[pagemap + page] := PageByte(k, page);
    }
  }

  /** r has the pages of its entry; the hosting entry gives its first pages to the metadata. */
  ghost predicate Describes(es: Map32, r: Placed, hosting: nat, pfaSize: nat) {
    && r.entry < |es| && IsValidRegion(es[r.entry])
    && r.firstPage == PageAlign(es[r.entry].addr) + (if r.entry == hosting then pfaSize else 0)
    && r.nbPages + (if r.entry == hosting then pfaSize / PAGE_SIZE else 0) == NbPages(es[r.entry])
  }

  ghost predicate HasRegion(regions: seq<Placed>, e: int) {
    exists k :: 0 <= k < |regions| && regions[k].entry == e
  }

  /** The regions follow one another without a gap, from the byte after the pointers to next. */
  ghost predicate GapFree(regions: seq<Placed>, start: nat, next: nat) {
    if regions == [] then next == start
    else
      var last := regions[|regions| - 1];
      next == last.End() && GapFree(regions[..|regions| - 1], start, last.offset)
  }

  /** The bytes that the hosting region gave up again when it shrank. */
  function Shrunk(i: nat, hosting: nat, pfaSize: nat): nat {
    if hosting < i then pfaSize / PAGE_SIZE else 0
  }

  /** Each region is that of an entry below i, with its metadata intact between
      start and next, and their order is that of the entries. */
  ghost predicate InPlace(es: Map32, cells: seq<Cell>, regions: seq<Placed>, i: nat, start: nat, next: nat,
                          hosting: nat, pfaSize: nat)
  {
    && (forall k :: 0 <= k < |regions| ==>
          && Describes(es, regions[k], hosting, pfaSize) && regions[k].entry < i
          && Intact(cells, regions[k], k)
          && start <= regions[k].offset && regions[k].End() <= next)
    && (forall j, k :: 0 <= j < k < |regions| ==> regions[j].entry < regions[k].entry)
  }

  /** The valid entries below i, all of them and in order, each with its metadata
      intact and before the next free byte, and their number at the start. */
  ghost predicate LaidOut(es: Map32, cells: seq<Cell>, regions: seq<Placed>, i: nat, next: nat, hosting: nat,
                          pfaSize: nat)
    requires i <= |es|
  {
    var start := META_HEADER + NbValid(es) * POINTER_SIZE;
    && |regions| == NbValid(es[..i])
    && CellsAre(cells, 0, META_HEADER, NbRegions(|regions|))
    && (forall e :: 0 <= e < i && IsValidRegion(es[e]) ==> HasRegion(regions, e))
    && InPlace(es, cells, regions, i, start, next, hosting, pfaSize)
    && GapFree(regions, start, next)
    && start <= next && next + Shrunk(i, hosting, pfaSize) == start + BodyBytes(es[..i])
  }

  /** Bytes outside the count, the pointer of region k and its full extent are as before. */
  ghost predicate OnlyRegion(c0: seq<Cell>, c1: seq<Cell>, k: nat, lo: nat, hi: nat) {
    && |c0| == |c1|
    && forall b :: META_HEADER <= b < |c0| && !(lo <= b < hi) && !IsPointerByte(b, k) ==> c1[b] == c0[b]
  }

  predicate IsPointerByte(b: nat, k: nat) {
    META_HEADER + k * POINTER_SIZE <= b < META_HEADER + (k + 1) * POINTER_SIZE
  }

  lemma KeepIntact(c0: seq<Cell>, c1: seq<Cell>, r: Placed, j: nat, k: nat, lo: nat, hi: nat)
    requires Intact(c0, r, j) && j < k && OnlyRegion(c0, c1, k, lo, hi)
    requires META_HEADER + (k + 1) * POINTER_SIZE <= r.offset && r.End() <= lo
    ensures Intact(c1, r, j)
  {
  }

  lemma PlaceStep(es: Map32, c0: seq<Cell>, c1: seq<Cell>, regions: seq<Placed>, i: nat, next: nat, r: Placed,
                  hosting: nat, pfaSize: nat)
    requires i < |es| && IsValidRegion(es[i]) && LaidOut(es, c0, regions, i, next, hosting, pfaSize)
    requires OnlyRegion(c0, c1, |regions|, next, next + REGION_HEADER + NbPages(es[i]))
    requires r.entry == i && r.offset == next && Describes(es, r, hosting, pfaSize) && Intact(c1, r, |regions|)
    requires CellsAre(c1, 0, META_HEADER, NbRegions(|regions| + 1))
    ensures LaidOut(es, c1, regions + [r], i + 1, r.End(), hosting, pfaSize)
  {
    SumsStep(es, i);
    SumsMonotone(es, i + 1);
    var start := META_HEADER + NbValid(es) * POINTER_SIZE;
    assert |regions| < NbValid(es) && r.End() >= next;
    hide Intact;
    hide IsValidRegion;
    hide HasRegion;
    InPlaceStep(es, c0, c1, regions, i, start, next, r, hosting, pfaSize);
    RegionOfEach(es, regions, i, r);
    GapFreeStep(regions, start, next, r);
    hide InPlace;
    hide GapFree;
    hide NbPages;
  }

  lemma InPlaceStep(es: Map32, c0: seq<Cell>, c1: seq<Cell>, regions: seq<Placed>, i: nat, start: nat, next: nat,
                    r: Placed, hosting: nat, pfaSize: nat)
    requires i < |es| && InPlace(es, c0, regions, i, start, next, hosting, pfaSize)
    requires OnlyRegion(c0, c1, |regions|, next, next + REGION_HEADER + NbPages(es[i]))
    requires r.entry == i && r.offset == next && Describes(es, r, hosting, pfaSize) && Intact(c1, r, |regions|)
    requires META_HEADER + (|regions| + 1) * POINTER_SIZE <= start <= next
    ensures InPlace(es, c1, regions + [r], i + 1, start, r.End(), hosting, pfaSize)
  {
    hide Intact;
    hide Describes;
    hide OnlyRegion;
    var k, rs := |regions|, regions + [r];
    forall j | 0 <= j < k
      ensures Intact(c1, rs[j], j)
    {
      KeepIntact(c0, c1, regions[j], j, k, next, next + REGION_HEADER + NbPages(es[i]));
    }
  }

  lemma GapFreeStep(regions: seq<Placed>, start: nat, next: nat, r: Placed)
    requires GapFree(regions, start, next) && r.offset == next
    ensures GapFree(regions + [r], start, r.End())
  {
    assert (regions + [r])[..|regions|] == regions;
  }

  lemma RegionOfEach(es: Map32, regions: seq<Placed>, i: nat, r: Placed)
    requires i < |es| && r.entry == i
    requires forall e :: 0 <= e < i && IsValidRegion(es[e]) ==> HasRegion(regions, e)
    ensures forall e :: 0 <= e <= i && IsValidRegion(es[e]) ==> HasRegion(regions + [r], e)
  {
    hide IsValidRegion;
    var rs := regions + [r];
    forall e | 0 <= e <= i && IsValidRegion(es[e])
      ensures HasRegion(rs, e)
    {
      if e < i {
        var j :| 0 <= j < |regions| && regions[j].entry == e;
        assert rs[j].entry == e;
      } else {
        assert rs[|regions|].entry == e;
      }
    }
  }

  /** The writes for region k: header and page map, pointer, and the new number of regions. */
  method WriteRegion(cells: array<Cell>, offset: nat, nbPages: nat, k: nat)
    requires META_HEADER + (k + 1) * POINTER_SIZE <= offset && offset + REGION_HEADER + nbPages <= cells.Length
    modifies cells
    ensures OnlyRegion(old(cells[..]), cells[..], k, offset, offset + REGION_HEADER + nbPages)
    ensures CellsAre(cells[..], 0, META_HEADER, NbRegions(k + 1))
    ensures forall r: Placed :: r.offset == offset && r.nbPages <= nbPages ==> Intact(cells[..], r, k)
  {
    InitPfaRegion(cells, offset, nbPages, k);
    WriteField(cells, META_HEADER + k * POINTER_SIZE, POINTER_SIZE, Pointer(k));
    WriteField(cells, 0, META_HEADER, NbRegions(k + 1));
  }

  /** One valid entry: the whole page map is written before the hosting region
      shrinks. */
  method PlaceRegion(ghost es: Map32, pmme: Entry, cells: array<Cell>, ghost regions: seq<Placed>, i: nat, next: nat,
                     k: nat, hosting: nat, pfaSize: nat) returns (r: Placed)
    requires i < |es| && pmme == es[i] && IsValidRegion(pmme)
    requires LaidOut(es, cells[..], regions, i, next, hosting, pfaSize)
    requires k == |regions| && Aligned(pfaSize) && MetaBytes(es) <= pfaSize == cells.Length
    requires hosting == i ==> AlignedLen(es[i]) >= pfaSize
    modifies cells
    ensures LaidOut(es, cells[..], regions + [r], i + 1, r.End(), hosting, pfaSize)
    ensures r.entry == i && r.offset == next
  {
    hide IsValidRegion;
    SumsStep(es, i);
    SumsMonotone(es, i + 1);
    ghost var c0 := cells[..];
    WriteRegion(cells, next, NbPages(pmme), k);
    var firstPage, nbPages := PageAlign(pmme.addr), NbPages(pmme);
    if i == hosting {
      firstPage := firstPage + pfaSize;
      nbPages := nbPages - pfaSize / PAGE_SIZE;
    }
    r := Placed(i, next, firstPage, nbPages);
    hide LaidOut;
    PlaceStep(es, c0, cells[..], regions, i, next, r, hosting, pfaSize);
  }

  /** Every valid entry is reserved as a whole, the others keep their type. */
  ghost predicate Retyped(es: Map32, fs: Entries, n: nat) {
    && |fs| == |es| && n <= |es|
    && forall i :: 0 <= i < |es| ==>
         fs[i] == if i < n && IsValidRegion(es[i]) then es[i].(kind := RESERVED) else es[i]
  }

  lemma NothingRetyped(es: Map32)
    ensures Retyped(es, es, 0)
  {
  }

  lemma RetypedStep(es: Map32, fs: Entries, i: nat)
    requires i < |es| && Retyped(es, fs, i)
    ensures |fs| == |es| && fs[i] == es[i]
    ensures Retyped(es, if IsValidRegion(es[i]) then fs[i := es[i].(kind := RESERVED)] else fs, i + 1)
  {
  }

  /** The first walk of reserve_regions: skips the pointers. */
  method SkipPointers(pmm: PhysMmap) returns (next: nat)
    requires pmm.Shape() && forall i :: 0 <= i < pmm.len ==> pmm.entries[i].addr < ADDRESS_SPACE
    ensures next == META_HEADER + NbValid(pmm.View()) * POINTER_SIZE
  {
    ghost var es: Map32 := pmm.View();
    next := META_HEADER;
    for i := 0 to pmm.len
      invariant next == META_HEADER + NbValid(es[..i]) * POINTER_SIZE
    {
      SumsStep(es, i);
      if IsValidRegion(pmm.entries[i]) {
        next := next + POINTER_SIZE;
      }
    }
    assert es[..pmm.len] == es;
  }

  /** reserve_regions: all of it fits in pfaSize bytes and nothing is overwritten,
      although the page map of the hosting region is written before it shrinks. */
  method ReserveRegions(pmm: PhysMmap, pfaSize: nat, hosting: nat)
    returns (cells: array<Cell>, regions: seq<Placed>, next: nat)
    requires pmm.Shape() && forall i :: 0 <= i < pmm.len ==> pmm.entries[i].addr < ADDRESS_SPACE
    requires Aligned(pfaSize) && hosting < pmm.len && MetaBytes(pmm.View()) <= pfaSize
    requires IsValidRegion(pmm.View()[hosting]) && AlignedLen(pmm.View()[hosting]) >= pfaSize
    modifies pmm.entries
    ensures fresh(cells) && cells.Length == pfaSize && pmm.Shape()
    ensures next <= pfaSize && next + pfaSize / PAGE_SIZE == MetaBytes(old(pmm.View()))
    ensures LaidOut(old(pmm.View()), cells[..], regions, |old(pmm.View())|, next, hosting, pfaSize)
    ensures Retyped(old(pmm.View()), pmm.View(), |old(pmm.View())|)
  {
    hide LaidOut;
    hide AlignedLen;
    hide NbPages;
    hide IsValidRegion;
    hide MetaBytes;
    ghost var es: Map32 := pmm.View();
    NothingRetyped(es);
    hide Retyped;
    MetaHasHeader(es);
    cells := new Cell[pfaSize](_ => Zero);
    WriteField(cells, 0, META_HEADER, NbRegions(0));  // four zero bytes
    regions := [];
    next := SkipPointers(pmm);
    NothingLaidOut(es, cells[..], next, hosting, pfaSize);
    for i := 0 to pmm.len
      invariant LaidOut(es, cells[..], regions, i, next, hosting, pfaSize)
      invariant pmm.Shape() && Retyped(es, pmm.View(), i) && |regions| == NbValid(es[..i])
    {
      SumsStep(es, i);
      ghost var fs := pmm.View();
      var pmme := pmm.entries[i];
      assert pmme == fs[i];
      RetypedStep(es, fs, i);
      if IsValidRegion(pmme) {
        var r := PlaceRegion(es, pmme, cells, regions, i, next, |regions|, hosting, pfaSize);
        pmm.entries[i] := pmme.(kind := RESERVED);
        assert pmm.View() == fs[i := es[i].(kind := RESERVED)];
        regions := regions + [r];
        next := r.End();
      } else {
        SkipEntry(es, cells[..], regions, i, next, hosting, pfaSize);
      }
    }
    AllFits(es, cells[..], regions, next, hosting, pfaSize);
  }

  lemma MetaHasHeader(es: Map32)
    ensures MetaBytes(es) >= META_HEADER
  {
  }

  lemma NothingLaidOut(es: Map32, cells: seq<Cell>, next: nat, hosting: nat, pfaSize: nat)
    requires next == META_HEADER + NbValid(es) * POINTER_SIZE && CellsAre(cells, 0, META_HEADER, NbRegions(0))
    ensures LaidOut(es, cells, [], 0, next, hosting, pfaSize) && NbValid(es[..0]) == 0
  {
  }

  lemma SkipEntry(es: Map32, cells: seq<Cell>, regions: seq<Placed>, i: nat, next: nat, hosting: nat, pfaSize: nat)
    requires i < |es| && !IsValidRegion(es[i]) && LaidOut(es, cells, regions, i, next, hosting, pfaSize)
    requires i != hosting
    ensures LaidOut(es, cells, regions, i + 1, next, hosting, pfaSize)
  {
    SumsStep(es, i);
  }

  lemma AllFits(es: Map32, cells: seq<Cell>, regions: seq<Placed>, next: nat, hosting: nat, pfaSize: nat)
    requires LaidOut(es, cells, regions, |es|, next, hosting, pfaSize) && MetaBytes(es) <= pfaSize && hosting < |es|
    ensures next <= pfaSize && next + pfaSize / PAGE_SIZE == MetaBytes(es)
  {
    assert es[..|es|] == es;
  }

  // --------------------------------------------------------------------------
  // Which pages the regions have

  // The first page of a region, as an address, and its number of pages.
  datatype Span = Span(firstPage: nat, nbPages: nat)

  /** What the allocator gets of entry i: its whole pages, but those of the metadata. */
  function SpanOf(es: Map32, i: nat, hosting: nat, pfaSize: nat): Span
    requires i < |es|
  {
    var first, n, m := PageAlign(es[i].addr), NbPages(es[i]), pfaSize / PAGE_SIZE;
    if i == hosting then Span(first + pfaSize, if n >= m then n - m else 0) else Span(first, n)
  }

  /** The regions of the first n entries, in order. */
  function Spans(es: Map32, n: nat, hosting: nat, pfaSize: nat): seq<Span>
    requires n <= |es|
  {
    if n == 0 then []
    else Spans(es, n - 1, hosting, pfaSize) +
         if IsValidRegion(es[n - 1]) then [SpanOf(es, n - 1, hosting, pfaSize)] else []
  }

  /** There is one region for each valid entry below n, and they are in order. */
  ghost predicate PlacedUpTo(es: Map32, regions: seq<Placed>, n: nat, hosting: nat, pfaSize: nat) {
    && n <= |es|
    && (forall k :: 0 <= k < |regions| ==> Describes(es, regions[k], hosting, pfaSize) && regions[k].entry < n)
    && (forall j, k :: 0 <= j < k < |regions| ==> regions[j].entry < regions[k].entry)
    && (forall e :: 0 <= e < n && IsValidRegion(es[e]) ==> HasRegion(regions, e))
  }

  ghost predicate HasSpans(regions: seq<Placed>, spans: seq<Span>) {
    && |regions| == |spans|
    && forall k :: 0 <= k < |spans| ==> spans[k] == Span(regions[k].firstPage, regions[k].nbPages)
  }

  /** The regions laid out are those spans. */
  lemma {:induction false} PlacedSpans(es: Map32, regions: seq<Placed>, n: nat, hosting: nat, pfaSize: nat)
    requires PlacedUpTo(es, regions, n, hosting, pfaSize)
    ensures n <= |es| && HasSpans(regions, Spans(es, n, hosting, pfaSize))
    decreases n
  {
    hide PlacedUpTo;
    hide IsValidRegion;
    hide SpanOf;
    hide HasSpans;
    if regions != [] {
      SomeEntry(es, regions, n, hosting, pfaSize);
    }
    if n == 0 {
      NoSpans(es, hosting, pfaSize);
    } else {
      var last := |regions| - 1;
      PlacedBefore(es, regions, n, hosting, pfaSize);
      if IsValidRegion(es[n - 1]) {
        PlacedSpans(es, regions[..last], n - 1, hosting, pfaSize);
        OneMoreSpan(regions, Spans(es, n - 1, hosting, pfaSize));
      } else {
        PlacedSpans(es, regions, n - 1, hosting, pfaSize);
        assert Spans(es, n, hosting, pfaSize) == Spans(es, n - 1, hosting, pfaSize);
      }
    }
  }

  lemma NoSpans(es: Map32, hosting: nat, pfaSize: nat)
    ensures HasSpans([], Spans(es, 0, hosting, pfaSize))
  {
  }

  lemma OneMoreSpan(regions: seq<Placed>, spans: seq<Span>)
    requires regions != [] && HasSpans(regions[..|regions| - 1], spans)
    ensures var r := regions[|regions| - 1]; HasSpans(regions, spans + [Span(r.firstPage, r.nbPages)])
  {
  }

  lemma SomeEntry(es: Map32, regions: seq<Placed>, n: nat, hosting: nat, pfaSize: nat)
    requires regions != [] && PlacedUpTo(es, regions, n, hosting, pfaSize)
    ensures n > 0
  {
    hide Describes;
    assert regions[0].entry < n;
  }

  /** Without entry n - 1. */
  lemma PlacedBefore(es: Map32, regions: seq<Placed>, n: nat, hosting: nat, pfaSize: nat)
    requires n > 0 && PlacedUpTo(es, regions, n, hosting, pfaSize)
    ensures n <= |es|
    ensures IsValidRegion(es[n - 1]) ==>
      && regions != [] && PlacedUpTo(es, regions[..|regions| - 1], n - 1, hosting, pfaSize)
      && var r := regions[|regions| - 1]; SpanOf(es, n - 1, hosting, pfaSize) == Span(r.firstPage, r.nbPages)
    ensures !IsValidRegion(es[n - 1]) ==> PlacedUpTo(es, regions, n - 1, hosting, pfaSize)
  {
    hide IsValidRegion;
    hide Describes;
    if IsValidRegion(es[n - 1]) {
      assert HasRegion(regions, n - 1);
      var k :| 0 <= k < |regions| && regions[k].entry == n - 1;
      var last := |regions| - 1;
      assert regions[last].entry < n;
      assert k == last;
      forall e | 0 <= e < n - 1 && IsValidRegion(es[e])
        ensures HasRegion(regions[..last], e)
      {
        var j :| 0 <= j < |regions| && regions[j].entry == e;
        assert regions[..last][j].entry == e;
      }
      DescribedSpan(es, regions[last], hosting, pfaSize);
    } else {
      forall k | 0 <= k < |regions| ensures regions[k].entry != n - 1 { ValidEntry(es, regions[k], hosting, pfaSize); }
    }
  }

  lemma DescribedSpan(es: Map32, r: Placed, hosting: nat, pfaSize: nat)
    requires Describes(es, r, hosting, pfaSize)
    ensures SpanOf(es, r.entry, hosting, pfaSize) == Span(r.firstPage, r.nbPages)
  {
    hide NbPages;
    hide IsValidRegion;
  }

  lemma ValidEntry(es: Map32, r: Placed, hosting: nat, pfaSize: nat)
    requires Describes(es, r, hosting, pfaSize)
    ensures IsValidRegion(es[r.entry])
  {
  }
}
