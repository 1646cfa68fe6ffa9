/** From the boot loader's memory map to the kernel's: where the map is stored,
    how it is filled and which ranges are reserved (kernel/mem/phys_mem_map.c;
    Multiboot Specification version 0.6.96, section 3.3). */
module MemoryBoot {
  import opened Memory
  import opened Regions
  import opened Sorting
  import opened PhysMemMap

  // An entry of the boot loader's map, with 64-bit address and length.
  datatype MmapEntry = MmapEntry(addr: nat, len: nat, kind: int)

  const FAIL: nat := 0xffffffff  // (uint32_t) -1
  const FOUR_GB: nat := ADDRESS_SPACE

  /** The 32-bit length of an entry that starts below four gigabytes. */
  function SegmentLen(m: MmapEntry): nat
    requires m.addr < FOUR_GB
  {
    if m.len >= FOUR_GB then FOUR_GB - m.addr else m.len
  }

  predicate Collides(srcAddr: nat, srcLen: nat, dstAddr: nat, dstLen: nat) {
    srcAddr < Sum32(dstAddr, dstLen) && Sum32(srcAddr, srcLen) > dstAddr
  }

  /** The ranges share no byte. */
  predicate Disjoint(a: int, n: nat, b: int, m: nat) {
    a + n <= b || b + m <= a
  }

  /** collides finds exactly the overlaps of non-empty ranges, when no sum wraps. */
  lemma CollidesIff(a: nat, n: nat, b: nat, m: nat)
    requires a + n < ADDRESS_SPACE && b + m < ADDRESS_SPACE
    ensures Collides(a, n, b, m) <==> !Disjoint(a, n, b, m)
  {
  }

  // The boot loader's structures that are still in use sit in RAM.
  predicate InRam(e: Entry) {
    e.End() <= TABLE_WINDOW
  }

  ghost predicate Clear(es: Entries, addr: int, size: nat) {
    forall i :: 0 <= i < |es| ==> Disjoint(addr, size, es[i].addr, es[i].len)
  }

  /** Where the upward pass over the regions ends: past every one it meets. */
  function Skip(es: Entries, start: nat, size: nat): nat
    requires forall i :: 0 <= i < |es| ==> InRam(es[i])
  {
    if es == [] then start
    else
      var n := |es| - 1;
      assert InRam(es[n]);
      SkipOne(es[n], Skip(es[..n], start, size), size)
  }

  /** x is a possible answer of the pass: the start or a page boundary above it, and clear. */
  ghost predicate Candidate(es: Entries, start: nat, size: nat, x: int) {
    x >= start && (x == start || x % PAGE_SIZE == 0) && Clear(es, x, size)
  }

  /** One region of the pass. */
  function SkipOne(e: Entry, addr: nat, size: nat): nat
    requires InRam(e)
  {
    if Collides(addr, size, e.addr, e.len) then PageAlign(Sum32(e.addr, e.len)) else addr
  }

  lemma SkipMore(es: Entries, i: nat, start: nat, size: nat)
    requires i < |es| && forall k :: 0 <= k < |es| ==> InRam(es[k])
    ensures Skip(es[..i + 1], start, size) == SkipOne(es[i], Skip(es[..i], start, size), size)
  {
    assert es[..i + 1][..i] == es[..i];
  }

  /** One step of the pass leaves no answer behind, and clears a sorted list. */
  lemma SkipOneStep(es: Entries, i: nat, addr: nat, start: nat, size: nat)
    requires i < |es| && InRam(es[i])
    requires start <= addr < TABLE_WINDOW + PAGE_SIZE && (addr == start || Aligned(addr))
    requires 0 < size && size + PAGE_SIZE <= ADDRESS_SPACE - TABLE_WINDOW
    ensures var next := SkipOne(es[i], addr, size);
      && addr <= next < TABLE_WINDOW + PAGE_SIZE && (next == start || Aligned(next))
      && (SortedBy((e: Entry) => e.addr, es) && Clear(es[..i], addr, size) ==> Clear(es[..i + 1], next, size))
    ensures forall x :: Candidate(es, start, size, x) && addr <= x ==> SkipOne(es[i], addr, size) <= x
  {
    forall x | Candidate(es, start, size, x) && addr <= x
      ensures SkipOne(es[i], addr, size) <= x
    {
      if Collides(addr, size, es[i].addr, es[i].len) {
        assert es[i].End() <= x;
        AlignIsLeast(es[i].End(), x);
      }
    }
  }

  /** The pass itself.  In any order of the regions no clear address, among the
      first one and the page boundaries, is below the result; when they are
      sorted, the result is clear. */
  method SkipRegions(mbr: array<Entry>, start: nat, size: nat) returns (addr: nat)
    requires forall i :: 0 <= i < mbr.Length ==> InRam(mbr[i])
    requires start < TABLE_WINDOW + PAGE_SIZE && 0 < size && size + PAGE_SIZE <= ADDRESS_SPACE - TABLE_WINDOW
    ensures start <= addr && addr + size < ADDRESS_SPACE && (addr == start || Aligned(addr))
    ensures addr == Skip(mbr[..], start, size)
    ensures SortedBy((e: Entry) => e.addr, mbr[..]) ==> Clear(mbr[..], addr, size)
    ensures forall x :: Candidate(mbr[..], start, size, x) ==> addr <= x
  {
    hide SortedBy;
    hide Skip;
    ghost var es := mbr[..];
    NothingSkipped(es, start, size);
    hide Clear;
    addr := start;
    assert forall x :: Candidate(es, start, size, x) ==> addr <= x;
    hide Candidate;
    for i := 0 to mbr.Length
      invariant start <= addr < TABLE_WINDOW + PAGE_SIZE && (addr == start || Aligned(addr))
      invariant addr == Skip(es[..i], start, size)
      invariant SortedBy((e: Entry) => e.addr, es) ==> Clear(es[..i], addr, size)
      invariant forall x :: Candidate(es, start, size, x) ==> addr <= x
    {
      var entry := mbr[i];
      SkipMore(es, i, start, size);
      SkipOneStep(es, i, addr, start, size);
      if Collides(addr, size, entry.addr, entry.len) {
        addr := PageAlign(Sum32(entry.addr, entry.len));
      }
    }
    assert es[..mbr.Length] == es;
  }

  lemma NothingSkipped(es: Entries, start: nat, size: nat)
    ensures Skip(es[..0], start, size) == start && Clear(es[..0], start, size)
  {
  }

  /** Out of order, the pass can end on a region that it has passed. */
  lemma UnsortedCollides()
    ensures var es := [Entry(0x102000, 0x1000, 0), Entry(0x101000, 0x1000, 0)];
      Skip(es, 0x101000, 0x1000) == 0x102000 && !Clear(es, 0x102000, 0x1000)
  {
    var es := [Entry(0x102000, 0x1000, 0), Entry(0x101000, 0x1000, 0)];
    assert es[..1] == [es[0]] && [es[0]][..0] == [];
    assert Skip([es[0]], 0x101000, 0x1000) == 0x101000;
    assert PageAlign(0x102000) == 0x102000;
    assert !Disjoint(0x102000, 0x1000, es[0].addr, es[0].len);
  }

  lemma AlignIsLeast(a: Address, x: int)
    requires a <= ADDRESS_SPACE - PAGE_SIZE && a <= x && x % PAGE_SIZE == 0
    ensures PageAlign(a) <= x
  {
    var p := PageAlign(a);
    assert p / PAGE_SIZE * PAGE_SIZE == p && x / PAGE_SIZE * PAGE_SIZE == x;
  }

  /** [addr, addr + size) lies in the available segment m, above low memory. */
  ghost predicate InSegment(m: MmapEntry, addr: int, size: nat) {
    && m.kind == AVAILABLE && LOW_MEMORY_END <= m.addr < FOUR_GB
    && m.addr <= addr && addr + size <= m.addr + SegmentLen(m)
  }

  /** There is room at addr: inside segment m, which ends below four gigabytes,
      above the kernel, at the start of the segment or on a page boundary, and
      clear of the boot loader's structures. */
  ghost predicate Room(m: MmapEntry, es: Entries, kernelEnd: nat, size: nat, addr: int)
    requires kernelEnd < TABLE_WINDOW
  {
    && InSegment(m, addr, size) && m.addr + SegmentLen(m) < FOUR_GB
    && addr >= PageAlign(kernelEnd + 1) && (addr == m.addr || addr % PAGE_SIZE == 0)
    && Clear(es, addr, size)
  }

  /** Where the source looks for room: RAM starts below the page-table window. */
  predicate StartsInRam(m: MmapEntry) {
    m.kind == AVAILABLE && m.addr < FOUR_GB ==> m.addr < TABLE_WINDOW
  }

  lemma RoomIsCandidate(m: MmapEntry, es: Entries, kernelEnd: nat, size: nat, start: nat, x: int)
    requires kernelEnd < TABLE_WINDOW && Room(m, es, kernelEnd, size, x)
    requires start == if PageAlign(kernelEnd + 1) < m.addr then m.addr else PageAlign(kernelEnd + 1)
    ensures Candidate(es, start, size, x) && m.addr <= x && x + size <= m.addr + SegmentLen(m) < FOUR_GB
  {
    hide Clear;
  }

  /** find_pmm_location on one entry of the boot loader's map: the lowest room in it. */
  method FindInSegment(m: MmapEntry, mbr: array<Entry>, kernelEnd: nat, size: nat) returns (addr: nat)
    requires forall i :: 0 <= i < mbr.Length ==> InRam(mbr[i])
    requires SortedBy((e: Entry) => e.addr, mbr[..]) && StartsInRam(m)
    requires kernelEnd < TABLE_WINDOW && 0 < size && size + PAGE_SIZE <= ADDRESS_SPACE - TABLE_WINDOW
    ensures addr == FAIL ==> forall x :: !Room(m, mbr[..], kernelEnd, size, x)
    ensures addr != FAIL ==> Room(m, mbr[..], kernelEnd, size, addr)
    ensures addr != FAIL ==> forall x :: Room(m, mbr[..], kernelEnd, size, x) ==> addr <= x
  {
    if m.kind != AVAILABLE || m.addr >= FOUR_GB || m.addr < LOW_MEMORY_END {
      return FAIL;
    }
    var segLen := if m.len >= FOUR_GB then FAIL - m.addr + 1 else m.len;
    var pmmAddr := PageAlign(kernelEnd + 1);
    if pmmAddr < m.addr {
      pmmAddr := m.addr;
    }
    forall x | Room(m, mbr[..], kernelEnd, size, x)
      ensures Candidate(mbr[..], pmmAddr, size, x) && x + size <= m.addr + SegmentLen(m) < FOUR_GB
    {
      RoomIsCandidate(m, mbr[..], kernelEnd, size, pmmAddr, x);
    }
    hide Candidate;
    hide Clear;
    hide Skip;
    pmmAddr := SkipRegions(mbr, pmmAddr, size);
    var segEnd := Sum32(m.addr, segLen);
    var pmmEnd := Sum32(pmmAddr, size);
    return if pmmEnd <= segEnd then pmmAddr else FAIL;
  }

  /** find_pmm_location: sorts the boot loader's map in place.  The location is
      the lowest room in the first segment that has any, and there is none only
      when no segment has room. */
  method FindPmmLocation(mmap: array<MmapEntry>, mbr: array<Entry>, kernelEnd: nat, size: nat) returns (addr: nat)
    requires forall i :: 0 <= i < mbr.Length ==> InRam(mbr[i])
    requires SortedBy((e: Entry) => e.addr, mbr[..])
    requires forall i :: 0 <= i < mmap.Length ==> StartsInRam(mmap[i])
    requires kernelEnd < TABLE_WINDOW && size + PAGE_SIZE <= ADDRESS_SPACE - TABLE_WINDOW
    modifies mmap
    ensures multiset(mmap[..]) == multiset(old(mmap[..]))
    ensures size > 0 ==> SortedBy((m: MmapEntry) => m.addr, mmap[..])
    ensures addr != FAIL ==> size > 0 && exists i :: FoundIn(mmap[..], i, mbr[..], kernelEnd, size, addr)
    ensures addr == FAIL && size > 0 ==> NoRoom(mmap[..], mbr[..], kernelEnd, size)
  {
    if size == 0 {
      return FAIL;
    }
    hide Room;
    BubbleSort(mmap, (m: MmapEntry) => m.addr);
    assert forall i :: 0 <= i < mmap.Length ==> StartsInRam(mmap[i]) by {
      SameElements(old(mmap[..]), mmap[..]);
    }
    ghost var sorted := mmap[..];
    for i := 0 to mmap.Length
      invariant mmap[..] == sorted && NoRoom(mmap[..i], mbr[..], kernelEnd, size)
    {
      addr := FindInSegment(mmap[i], mbr, kernelEnd, size);
      assert mmap[..][i] == mmap[i];
      if addr != FAIL {
        assert FoundIn(mmap[..], i, mbr[..], kernelEnd, size, addr);
        return addr;
      }
    }
    assert mmap[..mmap.Length] == mmap[..];
    return FAIL;
  }

  ghost predicate NoRoom(ms: seq<MmapEntry>, es: Entries, kernelEnd: nat, size: nat)
    requires kernelEnd < TABLE_WINDOW
  {
    forall i, x :: 0 <= i < |ms| ==> !Room(ms[i], es, kernelEnd, size, x)
  }

  ghost predicate FoundIn(ms: seq<MmapEntry>, i: int, es: Entries, kernelEnd: nat, size: nat, addr: int)
    requires kernelEnd < TABLE_WINDOW
  {
    && 0 <= i < |ms| && Room(ms[i], es, kernelEnd, size, addr) && NoRoom(ms[..i], es, kernelEnd, size)
    && forall x :: Room(ms[i], es, kernelEnd, size, x) ==> addr <= x
  }

  lemma SameElements(s: seq<MmapEntry>, t: seq<MmapEntry>)
    requires multiset(s) == multiset(t)
    requires forall i :: 0 <= i < |s| ==> StartsInRam(s[i])
    ensures forall i :: 0 <= i < |t| ==> StartsInRam(t[i])
  {
    forall i | 0 <= i < |t|
      ensures StartsInRam(t[i])
    {
      assert t[i] in multiset(t);
      assert t[i] in s;
    }
  }

  // --------------------------------------------------------------------------
  // Filling the kernel's map

  function Convert(m: MmapEntry): Entry
    requires m.addr < FOUR_GB
  {
    Entry(m.addr, SegmentLen(m), m.kind)
  }

  /** The entries below four gigabytes, with 32-bit lengths. */
  function Filled(ms: seq<MmapEntry>): (es: Entries)
    ensures |es| <= |ms|
  {
    if ms == [] then []
    else
      var es := Filled(ms[..|ms| - 1]);
      var m := ms[|ms| - 1];
      if m.addr < FOUR_GB then es + [Convert(m)] else es
  }

  /** The boot loader's entries are not empty and do not overlap, and none that
      is shorter than four gigabytes crosses that boundary. */
  ghost predicate WellFormedMap(ms: seq<MmapEntry>) {
    && (forall i :: 0 <= i < |ms| ==> ms[i].len > 0)
    && (forall i :: 0 <= i < |ms| && ms[i].addr < FOUR_GB ==> ms[i].addr + SegmentLen(ms[i]) <= FOUR_GB)
    && (forall i, j :: 0 <= i < |ms| && 0 <= j < |ms| && i != j ==>
          ms[i].addr + ms[i].len <= ms[j].addr || ms[j].addr + ms[j].len <= ms[i].addr)
  }

  /** A byte has in the filled map exactly the type the boot loader gave it. */
  lemma {:induction false} FilledTypes(ms: seq<MmapEntry>, x: int, t: int)
    ensures HasType(Filled(ms), x, t) <==>
            exists i :: 0 <= i < |ms| && ms[i].addr < FOUR_GB && Convert(ms[i]).Covers(x) && ms[i].kind == t
  {
    if ms != [] {
      var n := |ms| - 1;
      var es, fs := Filled(ms[..n]), Filled(ms);
      FilledTypes(ms[..n], x, t);
      if HasType(fs, x, t) {
        var i :| 0 <= i < |fs| && fs[i].Covers(x) && fs[i].kind == t;
        if i < |es| { assert es[i].Covers(x); } else { assert fs[i] == Convert(ms[n]); }
      }
      if i :| 0 <= i < |ms| && ms[i].addr < FOUR_GB && Convert(ms[i]).Covers(x) && ms[i].kind == t {
        if i < n {
          assert ms[..n][i] == ms[i];
          var k :| 0 <= k < |es| && es[k].Covers(x) && es[k].kind == t;
          assert fs[k].Covers(x);
        } else {
          assert fs[|es|].Covers(x);
        }
      }
    }
  }

  ghost predicate From(ms: seq<MmapEntry>, e: Entry, i: int) {
    0 <= i < |ms| && ms[i].addr < FOUR_GB && e == Convert(ms[i])
  }

  lemma {:induction false} FilledFrom(ms: seq<MmapEntry>, k: nat) returns (i: nat)
    requires k < |Filled(ms)|
    ensures From(ms, Filled(ms)[k], i)
  {
    var n := |ms| - 1;
    if k < |Filled(ms[..n])| {
      i := FilledFrom(ms[..n], k);
    } else {
      i := n;
    }
  }

  /** From a sorted map without overlaps, the kernel's map is sorted and disjoint. */
  lemma {:induction false} FilledOrdered(ms: seq<MmapEntry>)
    requires WellFormedMap(ms) && SortedBy((m: MmapEntry) => m.addr, ms)
    ensures Ordered(Filled(ms))
  {
    if ms != [] {
      var n := |ms| - 1;
      var es := Filled(ms[..n]);
      FilledOrdered(ms[..n]);
      forall k | 0 <= k < |es| && ms[n].addr < FOUR_GB
        ensures es[k].End() <= ms[n].addr
      {
        var i := FilledFrom(ms[..n], k);
        FilledBefore(ms, i, n);
      }
    }
  }

  lemma FilledBefore(ms: seq<MmapEntry>, i: nat, n: nat)
    requires WellFormedMap(ms) && SortedBy((m: MmapEntry) => m.addr, ms) && i < n < |ms|
    requires ms[n].addr < FOUR_GB
    ensures ms[i].addr < FOUR_GB && Convert(ms[i]).End() <= ms[n].addr
  {
    assert ms[i].addr <= ms[n].addr;
  }

  /** What the boot loader promises of its entries, in any order: distinct, not
      empty, not overlapping, and none crosses four gigabytes unless it is
      itself at least that long. */
  ghost predicate WellFormedBag(ms: multiset<MmapEntry>) {
    && (forall a :: a in ms ==> ms[a] == 1 && a.len > 0)
    && (forall a :: a in ms && a.addr < FOUR_GB ==> a.addr + SegmentLen(a) <= FOUR_GB)
    && (forall a, b :: a in ms && b in ms && a != b ==> a.addr + a.len <= b.addr || b.addr + b.len <= a.addr)
  }

  lemma BagIndexes(ms: seq<MmapEntry>)
    requires WellFormedBag(multiset(ms))
    ensures WellFormedMap(ms)
  {
    forall i, j | 0 <= i < j < |ms|
      ensures ms[i] != ms[j]
    {
      assert ms == ms[..j] + ms[j..];
      assert ms[i] == ms[..j][i] && ms[j] == ms[j..][0];
      assert multiset(ms) == multiset(ms[..j]) + multiset(ms[j..]);
    }
  }

  ghost predicate DistinctAddresses(s: seq<MmapEntry>) {
    forall i, j :: 0 <= i < |s| && 0 <= j < |s| && s[i].addr == s[j].addr ==> s[i] == s[j]
  }

  /** Only one order of the entries is sorted. */
  lemma {:induction false} SortedOnce(s: seq<MmapEntry>, t: seq<MmapEntry>)
    requires SortedBy((m: MmapEntry) => m.addr, s) && SortedBy((m: MmapEntry) => m.addr, t)
    requires multiset(s) == multiset(t) && DistinctAddresses(s)
    ensures s == t
    decreases |s|
  {
    hide SortedBy;
    hide DistinctAddresses;
    SameLength(s, t);
    if s != [] {
      var n := |s| - 1;
      LastSame(s, t);
      SortedPrefix(s);
      SortedPrefix(t);
      DistinctPrefix(s, n);
      var before, others := s[..n], t[..n];
      SortedOnce(before, others);
      SameFromPrefix(s, t, n);
    }
  }

  lemma SameFromPrefix(s: seq<MmapEntry>, t: seq<MmapEntry>, n: nat)
    requires |s| == |t| == n + 1 && s[..n] == t[..n] && s[n] == t[n]
    ensures s == t
  {
    assert s == s[..n] + [s[n]] && t == t[..n] + [t[n]];
  }

  lemma SameLength(s: seq<MmapEntry>, t: seq<MmapEntry>)
    requires multiset(s) == multiset(t)
    ensures |s| == |t|
  {
    assert |multiset(s)| == |s| && |multiset(t)| == |t|;
  }

  lemma DistinctPrefix(s: seq<MmapEntry>, n: nat)
    requires n <= |s| && DistinctAddresses(s)
    ensures DistinctAddresses(s[..n])
  {
  }

  lemma LastSame(s: seq<MmapEntry>, t: seq<MmapEntry>)
    requires SortedBy((m: MmapEntry) => m.addr, s) && SortedBy((m: MmapEntry) => m.addr, t)
    requires multiset(s) == multiset(t) && |s| == |t| > 0 && DistinctAddresses(s)
    ensures s[|s| - 1] == t[|t| - 1]
  {
    var n := |s| - 1;
    var i := IndexIn(t, s, n);
    var j := IndexIn(s, t, n);
    assert t[i].addr <= t[n].addr && s[j].addr <= s[n].addr;
  }

  lemma IndexIn(s: seq<MmapEntry>, t: seq<MmapEntry>, k: nat) returns (i: nat)
    requires multiset(s) == multiset(t) && k < |t|
    ensures i < |s| && s[i] == t[k]
  {
    assert t[k] in multiset(s);
    i :| 0 <= i < |s| && s[i] == t[k];
  }

  lemma SortedPrefix(s: seq<MmapEntry>)
    requires s != [] && SortedBy((m: MmapEntry) => m.addr, s)
    ensures SortedBy((m: MmapEntry) => m.addr, s[..|s| - 1])
    ensures multiset(s[..|s| - 1]) == multiset(s) - multiset{s[|s| - 1]}
  {
    assert s == s[..|s| - 1] + [s[|s| - 1]];
  }

  lemma SameMap(ms: seq<MmapEntry>, ns: seq<MmapEntry>)
    requires WellFormedBag(multiset(ms)) && multiset(ms) == multiset(ns)
    requires SortedBy((m: MmapEntry) => m.addr, ms) && SortedBy((m: MmapEntry) => m.addr, ns)
    ensures ms == ns
  {
    hide SortedBy;
    forall i, j | 0 <= i < |ms| && 0 <= j < |ms| && ms[i].addr == ms[j].addr
      ensures ms[i] == ms[j]
    {
      assert ms[i] in multiset(ms) && ms[j] in multiset(ms);
    }
    SortedOnce(ms, ns);
  }

  /** fill_phys_mmap. */
  method FillPhysMmap(mmap: array<MmapEntry>, pmm: PhysMmap)
    requires mmap.Length <= pmm.entries.Length
    modifies pmm`len, pmm.entries
    ensures pmm.Shape() && pmm.View() == Filled(mmap[..])
  {
    var entry := 0;
    for i := 0 to mmap.Length
      invariant entry <= i && pmm.entries[..entry] == Filled(mmap[..i])
    {
      var m := mmap[i];
      assert mmap[..i + 1][..i] == mmap[..i];
      if m.addr >= FOUR_GB {
        continue;
      }
      var len := if m.len >= FOUR_GB then FAIL - m.addr + 1 else m.len;
      pmm.entries[entry] := Entry(m.addr, len, m.kind);
      entry := entry + 1;
    }
    assert mmap[..mmap.Length] == mmap[..];
    pmm.len := entry;
  }

  // The fields of multiboot_info that are used; the module fields matter only
  // when the flag is set and the count is one.
  datatype Multiboot = Multiboot(addr: nat, size: nat, hasMmap: bool, mmapAddr: nat,
                                 hasMods: bool, modsCount: nat, modsAddr: nat, modStart: nat, modEnd: nat)
  {
    predicate HasModule() { hasMods && modsCount == 1 }
  }

  const MMAP_ENTRY_SIZE: nat := 24  // sizeof(multiboot_memory_map_t)
  const MODULE_SIZE: nat := 16      // sizeof(multiboot_module_t)
  const ENTRY_SIZE: nat := 12       // sizeof(struct phys_mmap_entry)

  /** Everything that the boot loader left in RAM lies below the page-table window. */
  predicate StructuresInRam(mbi: Multiboot, nbEntries: nat) {
    && mbi.addr + mbi.size <= TABLE_WINDOW && mbi.mmapAddr + nbEntries * MMAP_ENTRY_SIZE <= TABLE_WINDOW
    && (mbi.HasModule() ==> mbi.modsAddr + MODULE_SIZE <= TABLE_WINDOW && mbi.modStart <= mbi.modEnd <= TABLE_WINDOW)
  }

  /** identify_multiboot_regions. */
  method IdentifyRegions(mbi: Multiboot, nbEntries: nat) returns (mbr: array<Entry>)
    requires StructuresInRam(mbi, nbEntries)
    ensures fresh(mbr) && SortedBy((e: Entry) => e.addr, mbr[..])
    ensures multiset(mbr[..]) == multiset(BootRegions(mbi, nbEntries))
  {
    mbr := new Entry[if mbi.HasModule() then 4 else 2](_ => Entry(0, 0, 0));
    mbr[0] := Entry(mbi.addr, mbi.size, 0);
    mbr[1] := Entry(mbi.mmapAddr, nbEntries * MMAP_ENTRY_SIZE, 0);
    if mbi.HasModule() {
      mbr[2] := Entry(mbi.modsAddr, MODULE_SIZE, 0);
      mbr[3] := Entry(mbi.modStart, mbi.modEnd - mbi.modStart, 0);
    }
    assert mbr[..] == BootRegions(mbi, nbEntries);
    BubbleSort(mbr, (e: Entry) => e.addr);
  }

  /** The info structure, the memory map, and the module with its descriptor. */
  function BootRegions(mbi: Multiboot, nbEntries: nat): Entries {
    [Entry(mbi.addr, mbi.size, 0), Entry(mbi.mmapAddr, nbEntries * MMAP_ENTRY_SIZE, 0)] +
    if mbi.HasModule() && mbi.modStart <= mbi.modEnd
    then [Entry(mbi.modsAddr, MODULE_SIZE, 0), Entry(mbi.modStart, mbi.modEnd - mbi.modStart, 0)] else []
  }

  /** The range is clear of what the boot loader left: its information structure,
      its memory map of 24 bytes an entry, and the module with its descriptor of
      16 bytes. */
  predicate ApartFromLoader(mbi: Multiboot, nbEntries: nat, addr: int, size: nat) {
    && Disjoint(addr, size, mbi.addr, mbi.size)
    && Disjoint(addr, size, mbi.mmapAddr, 24 * nbEntries)
    && (mbi.hasMods && mbi.modsCount == 1 ==>
          && Disjoint(addr, size, mbi.modsAddr, 16)
          && (addr + size <= mbi.modStart || mbi.modEnd <= addr))
  }

  /** The regions are those structures and no others. */
  lemma ClearMeans(mbi: Multiboot, nbEntries: nat, addr: int, size: nat)
    requires StructuresInRam(mbi, nbEntries)
    ensures Clear(BootRegions(mbi, nbEntries), addr, size) <==> ApartFromLoader(mbi, nbEntries, addr, size)
  {
    var es := BootRegions(mbi, nbEntries);
    assert es[0] == Entry(mbi.addr, mbi.size, 0) && es[1].addr == mbi.mmapAddr && es[1].len == 24 * nbEntries;
    if mbi.HasModule() {
      assert es[2] == Entry(mbi.modsAddr, 16, 0) && es[3].addr == mbi.modStart && es[3].End() == mbi.modEnd;
    }
  }

  /** phys_mem_map_size, as a number of entries. */
  function Capacity(nbEntries: nat, hasModule: bool): nat {
    3 * (nbEntries + 2 + if hasModule then 1 else 0)
  }

  function PmmSize(nbEntries: nat, hasModule: bool): nat {
    4 + Capacity(nbEntries, hasModule) * ENTRY_SIZE
  }

  // A range of addresses that the kernel keeps for itself.
  datatype Range = Range(start: nat, len: nat) {
    predicate Has(x: int) { start <= x < start + len }
  }

  /** The bytes of the ranges are reserved; every other byte has the type that
      the boot loader gave it. */
  ghost predicate MapAfterBoot(ms: seq<MmapEntry>, es: Entries, kept: seq<Range>) {
    forall x, t :: HasType(es, x, t) <==> if IsKept(kept, x) then t == RESERVED else HasType(Filled(ms), x, t)
  }

  ghost predicate IsKept(kept: seq<Range>, x: int) {
    exists k :: 0 <= k < |kept| && kept[k].Has(x)
  }

  lemma KeepOne(ms: seq<MmapEntry>, es: Entries, fs: Entries, kept: seq<Range>, r: Range)
    requires MapAfterBoot(ms, es, kept) && ReservedIn(es, fs, r.start, r.len)
    ensures MapAfterBoot(ms, fs, kept + [r])
  {
    forall x
      ensures IsKept(kept + [r], x) <==> r.Has(x) || IsKept(kept, x)
    {
      KeptOneMore(kept, r, x);
    }
    hide HasType;
    hide IsKept;
  }

  lemma KeptOneMore(kept: seq<Range>, r: Range, x: int)
    ensures IsKept(kept + [r], x) <==> r.Has(x) || IsKept(kept, x)
  {
    var more := kept + [r];
    assert more[|kept|] == r;
    if k :| 0 <= k < |kept| && kept[k].Has(x) { assert more[k].Has(x); }
  }

  /** What the kernel keeps: its image, the map itself and the module. */
  function Kept(mbi: Multiboot, kernelStart: nat, kernelEnd: nat, pmmAddr: nat, pmmSize: nat): seq<Range>
    requires kernelStart <= kernelEnd
  {
    [Range(kernelStart, kernelEnd - kernelStart), Range(pmmAddr, pmmSize)] +
    if mbi.HasModule() && mbi.modStart <= mbi.modEnd then [Range(mbi.modStart, mbi.modEnd - mbi.modStart)] else []
  }

  // --------------------------------------------------------------------------
  // The map after the reservations

  /** The range lies in one available entry of the boot loader's. */
  ghost predicate InsideRam(ms: seq<MmapEntry>, start: nat, len: nat) {
    exists i :: 0 <= i < |ms| && ms[i].addr < FOUR_GB && Fits(Convert(ms[i]), start, len)
  }

  lemma {:induction false} FilledHas(ms: seq<MmapEntry>, i: nat) returns (k: nat)
    requires i < |ms| && ms[i].addr < FOUR_GB
    ensures k < |Filled(ms)| && Filled(ms)[k] == Convert(ms[i])
  {
    var n := |ms| - 1;
    if i < n {
      k := FilledHas(ms[..n], i);
    } else {
      k := |Filled(ms[..n])|;
    }
  }

  lemma FilledFits(ms: seq<MmapEntry>, start: nat, len: nat)
    ensures HasFit(Filled(ms), start, len) <==> InsideRam(ms, start, len)
  {
    hide Fits;
    if k: nat :| k < |Filled(ms)| && Fits(Filled(ms)[k], start, len) {
      var i := FilledFrom(ms, k);
    }
    if i: nat :| i < |ms| && ms[i].addr < FOUR_GB && Fits(Convert(ms[i]), start, len) {
      var k := FilledHas(ms, i);
    }
  }

  lemma AllFilledFits(ms: seq<MmapEntry>)
    ensures forall start: nat, len: nat :: HasFit(Filled(ms), start, len) <==> InsideRam(ms, start, len)
  {
    forall start: nat, len: nat
      ensures HasFit(Filled(ms), start, len) <==> InsideRam(ms, start, len)
    {
      FilledFits(ms, start, len);
    }
  }

  /** The list after reserve_region for a range that has a place. */
  ghost function Reserve(es: Entries, r: Range): Entries {
    if exists k: nat :: FirstFit(es, r.start, r.len, k) then
      var k: nat :| FirstFit(es, r.start, r.len, k);
      Carve(es, k, r.start, r.len)
    else es
  }

  lemma ReserveIs(es: Entries, r: Range, k: nat)
    requires FirstFit(es, r.start, r.len, k)
    ensures Reserve(es, r) == Carve(es, k, r.start, r.len)
  {
    var j: nat :| FirstFit(es, r.start, r.len, j) && Reserve(es, r) == Carve(es, j, r.start, r.len);
    FirstFitUnique(es, r.start, r.len, j, k);
  }

  /** The kernel's map after the boot loader's entries were filled in and the
      ranges reserved, one after the other. */
  ghost function AfterBoot(ms: seq<MmapEntry>, kept: seq<Range>): Entries {
    if kept == [] then Filled(ms) else Reserve(AfterBoot(ms, kept[..|kept| - 1]), kept[|kept| - 1])
  }

  lemma AfterOneMore(ms: seq<MmapEntry>, kept: seq<Range>, r: Range)
    ensures AfterBoot(ms, kept + [r]) == Reserve(AfterBoot(ms, kept), r)
  {
    assert (kept + [r])[..|kept|] == kept;
  }

  ghost predicate NotEmpty(es: Entries) {
    forall i :: 0 <= i < |es| ==> es[i].len > 0
  }

  /** e is entry i of the boot loader's between two neighbouring ranges. */
  ghost predicate PieceAt(ms: seq<MmapEntry>, kept: seq<Range>, e: Entry, i: int) {
    && 0 <= i < |ms| && ms[i].addr < FOUR_GB
    && e.kind == ms[i].kind && ms[i].addr <= e.addr && e.End() <= Convert(ms[i]).End()
    && (e.addr == ms[i].addr ||
        exists k :: 0 <= k < |kept| && ms[i].addr <= kept[k].start && kept[k].start + kept[k].len == e.addr)
    && (e.End() == Convert(ms[i]).End() || exists k :: 0 <= k < |kept| && kept[k].start == e.End())
    && (forall k :: 0 <= k < |kept| ==> Disjoint(e.addr, e.len, kept[k].start, kept[k].len))
  }

  /** What is available is what the ranges leave of the available entries. */
  ghost predicate FromPieces(ms: seq<MmapEntry>, kept: seq<Range>, es: Entries) {
    forall j :: 0 <= j < |es| && es[j].kind == AVAILABLE ==> exists i :: PieceAt(ms, kept, es[j], i)
  }

  /** What holds of the map between two reservations. */
  ghost predicate Kempt(ms: seq<MmapEntry>, kept: seq<Range>, es: Entries) {
    Ordered(es) && NotEmpty(es) && MapAfterBoot(ms, es, kept) && FromPieces(ms, kept, es)
  }

  lemma FilledNotEmpty(ms: seq<MmapEntry>)
    requires WellFormedMap(ms)
    ensures NotEmpty(Filled(ms))
  {
    forall k | 0 <= k < |Filled(ms)| ensures Filled(ms)[k].len > 0 { var i := FilledFrom(ms, k); }
  }

  lemma FilledKempt(ms: seq<MmapEntry>)
    requires WellFormedMap(ms) && Ordered(Filled(ms))
    ensures Kempt(ms, [], Filled(ms))
  {
    FilledNotEmpty(ms);
    var es := Filled(ms);
    forall j | 0 <= j < |es| && es[j].kind == AVAILABLE
      ensures exists i :: PieceAt(ms, [], es[j], i)
    {
      var i := FilledFrom(ms, j);
      assert PieceAt(ms, [], es[j], i);
    }
  }

  lemma PieceMore(ms: seq<MmapEntry>, kept: seq<Range>, r: Range, e: Entry, i: int)
    requires PieceAt(ms, kept, e, i) && Disjoint(e.addr, e.len, r.start, r.len)
    ensures PieceAt(ms, kept + [r], e, i)
  {
    var more := kept + [r];
    assert forall k :: 0 <= k < |kept| ==> more[k] == kept[k];
  }

  /** The parts of an entry around a range that it holds. */
  lemma PieceParts(ms: seq<MmapEntry>, kept: seq<Range>, r: Range, e: Entry, i: int)
    requires PieceAt(ms, kept, e, i) && e.addr <= r.start && r.start + r.len <= e.End() && r.len > 0
    ensures e.addr < r.start ==> PieceAt(ms, kept + [r], Entry(e.addr, r.start - e.addr, e.kind), i)
    ensures r.start + r.len < e.End() ==>
      PieceAt(ms, kept + [r], Entry(r.start + r.len, e.End() - (r.start + r.len), e.kind), i)
  {
    var more, n := kept + [r], |kept|;
    assert forall k :: 0 <= k < n ==> more[k] == kept[k];
    assert more[n] == r;
  }

  lemma CarveNotEmpty(es: Entries, k: nat, addr: nat, size: nat)
    requires NotEmpty(es) && k < |es| && es[k].addr <= addr && addr + size <= es[k].End() && size > 0
    ensures NotEmpty(Carve(es, k, addr, size))
  {
    hide Carve;
    var fs, ps := Carve(es, k, addr, size), Pieces(es[k], addr, size);
    CarveEntries(es, k, addr, size);
    forall j | 0 <= j < |fs| ensures fs[j].len > 0 {
      if k <= j < k + |ps| {
        assert fs[j] == ps[j - k];
      } else {
        assert fs[j] == es[if j < k then j else j + 1 - |ps|];
      }
    }
  }

  lemma CarvePieces(ms: seq<MmapEntry>, kept: seq<Range>, es: Entries, k: nat, r: Range)
    requires Ordered(es) && FromPieces(ms, kept, es) && FirstFit(es, r.start, r.len, k) && r.len > 0
    ensures FromPieces(ms, kept + [r], Carve(es, k, r.start, r.len))
  {
    hide Carve;
    hide PieceAt;
    var fs, ps := Carve(es, k, r.start, r.len), Pieces(es[k], r.start, r.len);
    CarveEntries(es, k, r.start, r.len);
    assert es[k].End() <= ADDRESS_SPACE;
    var h :| PieceAt(ms, kept, es[k], h);
    PieceParts(ms, kept, r, es[k], h);
    forall j | 0 <= j < |fs| && fs[j].kind == AVAILABLE
      ensures exists i :: PieceAt(ms, kept + [r], fs[j], i)
    {
      if k <= j < k + |ps| {
        assert fs[j] == ps[j - k] && PieceAt(ms, kept + [r], fs[j], h);
      } else {
        var o := if j < k then j else j + 1 - |ps|;
        assert fs[j] == es[o];
        var i :| PieceAt(ms, kept, es[o], i);
        PieceMore(ms, kept, r, es[o], i);
      }
    }
  }

  /** One reservation. */
  lemma KeepKempt(ms: seq<MmapEntry>, kept: seq<Range>, es: Entries, fs: Entries, k: nat, r: Range)
    requires Kempt(ms, kept, es) && FirstFit(es, r.start, r.len, k) && r.len > 0
    requires fs == Carve(es, k, r.start, r.len) && Ordered(fs) && ReservedIn(es, fs, r.start, r.len)
    ensures Kempt(ms, kept + [r], fs) && fs == Reserve(es, r)
  {
    hide FromPieces;
    hide NotEmpty;
    hide MapAfterBoot;
    hide ReservedIn;
    hide Carve;
    hide Reserve;
    KeepOne(ms, es, fs, kept, r);
    CarvePieces(ms, kept, es, k, r);
    assert es[k].End() <= ADDRESS_SPACE;
    CarveNotEmpty(es, k, r.start, r.len);
    ReserveIs(es, r, k);
  }

  /** Where a range still has a place once r is reserved. */
  lemma FitAfterReserve(es: Entries, k: nat, r: Range, a: nat, n: nat)
    requires Ordered(es) && FirstFit(es, r.start, r.len, k) && r.len > 0 && n > 0
    ensures HasFit(Carve(es, k, r.start, r.len), a, n) <==> HasFit(es, a, n) && Disjoint(a, n, r.start, r.len)
  {
    CarveFit(es, k, r.start, r.len, a, n);
  }

  lemma NoEmptyFit(es: Entries, addr: nat)
    requires NotEmpty(es)
    ensures !EmptyFit(es, addr)
  {
  }

  /** The kernel and the module can be reserved: each lies in one available
      entry, the module is not empty, and they share no byte. */
  ghost predicate Reservable(mbi: Multiboot, ms: seq<MmapEntry>, kernelStart: nat, kernelEnd: nat)
    requires kernelStart <= kernelEnd
  {
    && InsideRam(ms, kernelStart, kernelEnd - kernelStart)
    && (mbi.HasModule() ==>
          && mbi.modStart < mbi.modEnd
          && InsideRam(ms, mbi.modStart, mbi.modEnd - mbi.modStart)
          && Disjoint(mbi.modStart, mbi.modEnd - mbi.modStart, kernelStart, kernelEnd - kernelStart))
  }

  /** The boot loader gave a map and at most one module. */
  predicate Complete(mbi: Multiboot) {
    mbi.hasMmap && !(mbi.hasMods && mbi.modsCount > 1)
  }

  /** phys_mem_map_init.  It succeeds exactly when there is room for the map and
      the kernel and the module can be reserved; the reservation of the map
      itself cannot fail.  The array bounds show that the entries never exceed
      the capacity over all reservations. */
  method PhysMemMapInit(mbi: Multiboot, mmap: array<MmapEntry>, kernelStart: nat, kernelEnd: nat)
    returns (ok: bool, pmm: PhysMmap, pmmAddr: nat)
    requires WellFormedBag(multiset(mmap[..])) && forall i :: 0 <= i < mmap.Length ==> StartsInRam(mmap[i])
    requires StructuresInRam(mbi, mmap.Length) && kernelStart < kernelEnd < TABLE_WINDOW
    requires PmmSize(mmap.Length, true) + PAGE_SIZE <= ADDRESS_SPACE - TABLE_WINDOW
    modifies mmap
    ensures fresh(pmm) && fresh(pmm.entries)
    ensures multiset(mmap[..]) == multiset(old(mmap[..]))
    ensures Complete(mbi) ==> SortedBy((m: MmapEntry) => m.addr, mmap[..])
    ensures ok <==> CanReserve(mbi, mmap[..], kernelStart, kernelEnd)
    ensures HasRoomFor(mbi, mmap[..], kernelEnd) ==>
      && Located(mbi, mmap[..], kernelEnd, pmmAddr) && pmmAddr > kernelEnd
      && ApartFromLoader(mbi, mmap.Length, pmmAddr, PmmSize(mmap.Length, mbi.HasModule()))
    ensures ok ==>
      var kept := Kept(mbi, kernelStart, kernelEnd, pmmAddr, PmmSize(mmap.Length, mbi.HasModule()));
      && pmm.Shape() && pmm.entries.Length == 3 * (mmap.Length + if mbi.HasModule() then 3 else 2)
      && kept[1] == Range(pmmAddr, 4 + 12 * pmm.entries.Length)
      && WellFormedMap(mmap[..]) && pmm.View() == AfterBoot(mmap[..], kept) && Kempt(mmap[..], kept, pmm.View())
  {
    hide WellFormedBag;
    hide SortedBy;
    hide FoundIn;
    hide NoRoom;
    hide Room;
    hide Kempt;
    hide Reservable;
    hide AfterBoot;
    hide ApartFromLoader;
    hide HasRoomFor;
    hide Located;
    hide BootRegions;
    pmm := new PhysMmap(Capacity(mmap.Length, mbi.HasModule()));
    pmmAddr := FAIL;
    NotComplete(mbi, mmap[..], kernelEnd);
    if !mbi.hasMmap || (mbi.hasMods && mbi.modsCount > 1) {
      return false, pmm, pmmAddr;
    }
    var pmmSize := PmmSize(mmap.Length, mbi.HasModule());
    pmmAddr := Locate(mbi, mmap, kernelEnd, pmmSize);
    if pmmAddr == FAIL {
      NothingLocated(mbi, mmap[..], kernelEnd);
      return false, pmm, pmmAddr;
    }
    WhereLocated(mbi, mmap[..], kernelEnd, pmmAddr);
    ok := FillAndReserve(mbi, mmap, pmm, kernelStart, kernelEnd, pmmAddr, pmmSize);
  }

  lemma NotComplete(mbi: Multiboot, ms: seq<MmapEntry>, kernelEnd: nat)
    requires kernelEnd < TABLE_WINDOW
    ensures HasRoomFor(mbi, ms, kernelEnd) ==> Complete(mbi)
  {
  }

  lemma NothingLocated(mbi: Multiboot, ms: seq<MmapEntry>, kernelEnd: nat)
    requires kernelEnd < TABLE_WINDOW && NoRoom(ms, BootRegions(mbi, |ms|), kernelEnd, PmmSize(|ms|, mbi.HasModule()))
    ensures !HasRoomFor(mbi, ms, kernelEnd)
  {
    hide Room;
  }

  lemma WhereLocated(mbi: Multiboot, ms: seq<MmapEntry>, kernelEnd: nat, addr: nat)
    requires kernelEnd < TABLE_WINDOW && StructuresInRam(mbi, |ms|) && Complete(mbi)
    requires var size := PmmSize(|ms|, mbi.HasModule());
      exists i :: FoundIn(ms, i, BootRegions(mbi, |ms|), kernelEnd, size, addr)
    ensures HasRoomFor(mbi, ms, kernelEnd) && Located(mbi, ms, kernelEnd, addr) && addr > kernelEnd
    ensures var size := PmmSize(|ms|, mbi.HasModule());
      && ApartFromLoader(mbi, |ms|, addr, size)
      && exists i :: 0 <= i < |ms| && Room(ms[i], BootRegions(mbi, |ms|), kernelEnd, size, addr)
  {
    hide Room;
    hide BootRegions;
    hide ApartFromLoader;
    FoundMeansRoom(ms, BootRegions(mbi, |ms|), kernelEnd, PmmSize(|ms|, mbi.HasModule()), addr);
    RoomIsApart(mbi, ms, kernelEnd, PmmSize(|ms|, mbi.HasModule()), addr);
  }

  lemma RoomIsApart(mbi: Multiboot, ms: seq<MmapEntry>, kernelEnd: nat, size: nat, addr: nat)
    requires kernelEnd < TABLE_WINDOW && StructuresInRam(mbi, |ms|)
    requires exists i :: 0 <= i < |ms| && Room(ms[i], BootRegions(mbi, |ms|), kernelEnd, size, addr)
    ensures addr > kernelEnd && ApartFromLoader(mbi, |ms|, addr, size)
  {
    hide Clear;
    ClearMeans(mbi, |ms|, addr, size);
  }

  /** Some segment of the boot loader's map has room for the kernel's. */
  ghost predicate HasRoomFor(mbi: Multiboot, ms: seq<MmapEntry>, kernelEnd: nat)
    requires kernelEnd < TABLE_WINDOW
  {
    Complete(mbi) && !NoRoom(ms, BootRegions(mbi, |ms|), kernelEnd, PmmSize(|ms|, mbi.HasModule()))
  }

  ghost predicate CanReserve(mbi: Multiboot, ms: seq<MmapEntry>, kernelStart: nat, kernelEnd: nat)
    requires kernelStart <= kernelEnd < TABLE_WINDOW
  {
    HasRoomFor(mbi, ms, kernelEnd) && Reservable(mbi, ms, kernelStart, kernelEnd)
  }

  /** The map lies at the lowest room of the first segment that has any. */
  ghost predicate Located(mbi: Multiboot, ms: seq<MmapEntry>, kernelEnd: nat, pmmAddr: nat)
    requires kernelEnd < TABLE_WINDOW
  {
    exists i :: FoundIn(ms, i, BootRegions(mbi, |ms|), kernelEnd, PmmSize(|ms|, mbi.HasModule()), pmmAddr)
  }

  lemma FoundMeansRoom(ms: seq<MmapEntry>, es: Entries, kernelEnd: nat, size: nat, addr: nat)
    requires kernelEnd < TABLE_WINDOW && exists i :: FoundIn(ms, i, es, kernelEnd, size, addr)
    ensures !NoRoom(ms, es, kernelEnd, size) && exists i :: 0 <= i < |ms| && Room(ms[i], es, kernelEnd, size, addr)
  {
    hide Room;
  }

  /** The map as the boot loader gave it, and the reservations on it. */
  method FillAndReserve(mbi: Multiboot, mmap: array<MmapEntry>, pmm: PhysMmap,
                        kernelStart: nat, kernelEnd: nat, pmmAddr: nat, pmmSize: nat) returns (ok: bool)
    requires WellFormedBag(multiset(mmap[..])) && SortedBy((m: MmapEntry) => m.addr, mmap[..])
    requires pmm.Shape() && pmm.len == 0 && pmm.nbReserved == 0 && pmmSize > 0
    requires pmm.entries.Length == Capacity(mmap.Length, mbi.HasModule())
    requires kernelStart < kernelEnd < TABLE_WINDOW
    requires var es := BootRegions(mbi, mmap.Length);
      exists i :: 0 <= i < mmap.Length && Room(mmap[i], es, kernelEnd, pmmSize, pmmAddr)
    requires mbi.HasModule() ==> mbi.modStart <= mbi.modEnd <= TABLE_WINDOW
    modifies pmm, pmm.entries
    ensures ok <==> Reservable(mbi, mmap[..], kernelStart, kernelEnd)
    ensures ok ==>
      var kept := Kept(mbi, kernelStart, kernelEnd, pmmAddr, pmmSize);
      && pmm.Shape() && WellFormedMap(mmap[..])
      && pmm.View() == AfterBoot(mmap[..], kept) && Kempt(mmap[..], kept, pmm.View())
  {
    hide WellFormedMap;
    hide WellFormedBag;
    hide Ordered;
    hide SortedBy;
    hide Kempt;
    hide Kept;
    hide Room;
    hide Reservable;
    hide AfterBoot;
    FillPhysMmap(mmap, pmm);
    BagIndexes(mmap[..]);
    FilledOrdered(mmap[..]);
    ok := ReserveAll(mbi, mmap[..], pmm, kernelStart, kernelEnd, pmmAddr, pmmSize);
  }

  /** The location of the map: find_pmm_location on the identified regions. */
  method Locate(mbi: Multiboot, mmap: array<MmapEntry>, kernelEnd: nat, size: nat) returns (addr: nat)
    requires forall i :: 0 <= i < mmap.Length ==> StartsInRam(mmap[i])
    requires StructuresInRam(mbi, mmap.Length)
    requires kernelEnd < TABLE_WINDOW && 0 < size && size + PAGE_SIZE <= ADDRESS_SPACE - TABLE_WINDOW
    modifies mmap
    ensures multiset(mmap[..]) == multiset(old(mmap[..])) && SortedBy((m: MmapEntry) => m.addr, mmap[..])
    ensures addr != FAIL ==>
      && addr + size < ADDRESS_SPACE
      && exists i :: FoundIn(mmap[..], i, BootRegions(mbi, mmap.Length), kernelEnd, size, addr)
    ensures addr == FAIL ==> NoRoom(mmap[..], BootRegions(mbi, mmap.Length), kernelEnd, size)
  {
    hide FoundIn;
    hide NoRoom;
    var mbr := IdentifyRegions(mbi, mmap.Length);
    BootRegionsInRam(mbi, mmap.Length, mbr[..]);
    addr := FindPmmLocation(mmap, mbr, kernelEnd, size);
    SameRoom(mmap[..], mbr[..], BootRegions(mbi, mmap.Length), kernelEnd, size);
    if addr != FAIL {
      ghost var i :| FoundIn(mmap[..], i, mbr[..], kernelEnd, size, addr);
      SameFound(mmap[..], i, mbr[..], BootRegions(mbi, mmap.Length), kernelEnd, size, addr);
    }
  }

  /** Room does not depend on the order of the regions. */
  lemma ClearSame(es: Entries, fs: Entries, addr: int, size: nat)
    requires multiset(es) == multiset(fs)
    ensures Clear(es, addr, size) <==> Clear(fs, addr, size)
  {
    forall e ensures e in es <==> e in fs {
      assert e in es <==> e in multiset(es);
      assert e in fs <==> e in multiset(fs);
    }
    assert Clear(es, addr, size) <==> forall e :: e in es ==> Disjoint(addr, size, e.addr, e.len);
    assert Clear(fs, addr, size) <==> forall e :: e in fs ==> Disjoint(addr, size, e.addr, e.len);
  }

  lemma SameRoom(ms: seq<MmapEntry>, es: Entries, fs: Entries, kernelEnd: nat, size: nat)
    requires kernelEnd < TABLE_WINDOW && multiset(es) == multiset(fs)
    ensures NoRoom(ms, es, kernelEnd, size) <==> NoRoom(ms, fs, kernelEnd, size)
  {
    hide Clear;
    forall i, x | 0 <= i < |ms|
      ensures Room(ms[i], es, kernelEnd, size, x) <==> Room(ms[i], fs, kernelEnd, size, x)
    {
      ClearSame(es, fs, x, size);
    }
  }

  lemma SameFound(ms: seq<MmapEntry>, i: int, es: Entries, fs: Entries, kernelEnd: nat, size: nat, addr: int)
    requires kernelEnd < TABLE_WINDOW && multiset(es) == multiset(fs)
    requires FoundIn(ms, i, es, kernelEnd, size, addr)
    ensures FoundIn(ms, i, fs, kernelEnd, size, addr) && addr + size < ADDRESS_SPACE
  {
    hide Clear;
    SameRoom(ms[..i], es, fs, kernelEnd, size);
    forall x
      ensures Room(ms[i], es, kernelEnd, size, x) <==> Room(ms[i], fs, kernelEnd, size, x)
    {
      ClearSame(es, fs, x, size);
    }
  }

  lemma BootRegionsInRam(mbi: Multiboot, nbEntries: nat, mbr: Entries)
    requires StructuresInRam(mbi, nbEntries) && multiset(mbr) == multiset(BootRegions(mbi, nbEntries))
    ensures forall i :: 0 <= i < |mbr| ==> InRam(mbr[i])
  {
    forall i | 0 <= i < |mbr|
      ensures InRam(mbr[i])
    {
      assert mbr[i] in multiset(mbr);
      assert mbr[i] in BootRegions(mbi, nbEntries);
    }
  }

  /** A place for the map was found above the kernel and clear of the module, so
      it can be reserved. */
  lemma RoomFits(ms: seq<MmapEntry>, mbi: Multiboot, kernelStart: nat, kernelEnd: nat, size: nat, addr: nat)
    requires kernelStart < kernelEnd < TABLE_WINDOW && size > 0
    requires exists i :: 0 <= i < |ms| && Room(ms[i], BootRegions(mbi, |ms|), kernelEnd, size, addr)
    ensures InsideRam(ms, addr, size) && Disjoint(addr, size, kernelStart, kernelEnd - kernelStart)
    ensures addr + size < ADDRESS_SPACE
    ensures mbi.HasModule() && mbi.modStart <= mbi.modEnd ==>
      Disjoint(mbi.modStart, mbi.modEnd - mbi.modStart, addr, size)
  {
    var i :| 0 <= i < |ms| && Room(ms[i], BootRegions(mbi, |ms|), kernelEnd, size, addr);
    assert Fits(Convert(ms[i]), addr, size);
    var rs := BootRegions(mbi, |ms|);
    if mbi.HasModule() && mbi.modStart <= mbi.modEnd {
      assert rs[3] == Entry(mbi.modStart, mbi.modEnd - mbi.modStart, 0);
    }
  }

  /** One reservation of a range that is not empty. */
  method ReserveOne(ghost ms: seq<MmapEntry>, pmm: PhysMmap, start: nat, len: nat, ghost kept: seq<Range>)
    returns (ok: bool)
    requires pmm.Shape() && Kempt(ms, kept, pmm.View()) && pmm.View() == AfterBoot(ms, kept) && len > 0
    requires pmm.nbReserved < 3 && pmm.len + 2 <= pmm.entries.Length && start + len < ADDRESS_SPACE
    modifies pmm, pmm.entries
    ensures ok <==> HasFit(old(pmm.View()), start, len)
    ensures pmm.Shape() && pmm.len <= old(pmm.len) + 2
    ensures ok ==>
      && pmm.nbReserved == old(pmm.nbReserved) + 1
      && Kempt(ms, kept + [Range(start, len)], pmm.View()) && pmm.View() == AfterBoot(ms, kept + [Range(start, len)])
      && forall a: nat, n: nat :: n > 0 ==>
           (HasFit(pmm.View(), a, n) <==> HasFit(old(pmm.View()), a, n) && Disjoint(a, n, start, len))
  {
    hide HasType;
    hide HasFit;
    hide EmptyFit;
    hide Ordered;
    hide MapAfterBoot;
    hide ReservedIn;
    hide FromPieces;
    hide NotEmpty;
    hide Carve;
    hide Reserve;
    hide AfterBoot;
    ghost var es, r := pmm.View(), Range(start, len);
    ok := pmm.ReserveRegion(start, len);
    if ok {
      ghost var k: nat :| FirstFit(es, start, len, k) && pmm.View() == Carve(es, k, start, len);
      KeepKempt(ms, kept, es, pmm.View(), k, r);
      AfterOneMore(ms, kept, r);
      forall a: nat, n: nat | n > 0
        ensures HasFit(pmm.View(), a, n) <==> HasFit(es, a, n) && Disjoint(a, n, start, len)
      {
        FitAfterReserve(es, k, r, a, n);
      }
    }
  }

  /** The reservations: the kernel, the map itself and the module. */
  method ReserveAll(mbi: Multiboot, ghost ms: seq<MmapEntry>, pmm: PhysMmap,
                    kernelStart: nat, kernelEnd: nat, pmmAddr: nat, pmmSize: nat) returns (ok: bool)
    requires pmm.Shape() && pmm.View() == Filled(ms) && Ordered(pmm.View()) && pmm.nbReserved == 0
    requires pmm.len + (if mbi.HasModule() then 6 else 4) <= pmm.entries.Length && WellFormedMap(ms)
    requires kernelStart < kernelEnd < TABLE_WINDOW && pmmSize > 0
    requires exists i :: 0 <= i < |ms| && Room(ms[i], BootRegions(mbi, |ms|), kernelEnd, pmmSize, pmmAddr)
    requires mbi.HasModule() ==> mbi.modStart <= mbi.modEnd <= TABLE_WINDOW
    modifies pmm, pmm.entries
    ensures ok <==> Reservable(mbi, ms, kernelStart, kernelEnd)
    ensures ok ==>
      var kept := Kept(mbi, kernelStart, kernelEnd, pmmAddr, pmmSize);
      pmm.Shape() && pmm.View() == AfterBoot(ms, kept) && Kempt(ms, kept, pmm.View())
  {
    hide HasFit;
    hide Ordered;
    hide Kempt;
    hide Room;
    hide InsideRam;
    hide AfterBoot;
    hide PhysMmap.View;
    RoomFits(ms, mbi, kernelStart, kernelEnd, pmmSize, pmmAddr);
    ok := ReserveTwo(ms, pmm, kernelStart, kernelEnd - kernelStart, pmmAddr, pmmSize);
    if ok {
      ghost var kept := [Range(kernelStart, kernelEnd - kernelStart), Range(pmmAddr, pmmSize)];
      if mbi.HasModule() {
        ok := ReserveModule(ms, pmm, mbi.modStart, mbi.modEnd - mbi.modStart, kept);
        assert kept + [Range(mbi.modStart, mbi.modEnd - mbi.modStart)]
            == Kept(mbi, kernelStart, kernelEnd, pmmAddr, pmmSize);
      } else {
        assert kept == Kept(mbi, kernelStart, kernelEnd, pmmAddr, pmmSize);
      }
    }
  }

  /** The kernel and the map: only the kernel can fail to have a place. */
  method ReserveTwo(ghost ms: seq<MmapEntry>, pmm: PhysMmap, start: nat, len: nat, pmmAddr: nat, pmmSize: nat)
    returns (ok: bool)
    requires pmm.Shape() && pmm.View() == Filled(ms) && Ordered(pmm.View()) && pmm.nbReserved == 0
    requires pmm.len + 4 <= pmm.entries.Length && WellFormedMap(ms)
    requires start + len < ADDRESS_SPACE && pmmAddr + pmmSize < ADDRESS_SPACE && len > 0 && pmmSize > 0
    requires InsideRam(ms, pmmAddr, pmmSize) && Disjoint(pmmAddr, pmmSize, start, len)
    modifies pmm, pmm.entries
    ensures ok <==> InsideRam(ms, start, len)
    ensures ok ==>
      var kept := [Range(start, len), Range(pmmAddr, pmmSize)];
      && pmm.Shape() && pmm.nbReserved == 2 && pmm.len <= old(pmm.len) + 4
      && pmm.View() == AfterBoot(ms, kept) && Kempt(ms, kept, pmm.View())
      && forall a: nat, n: nat :: n > 0 ==>
           (HasFit(pmm.View(), a, n) <==>
              InsideRam(ms, a, n) && Disjoint(a, n, start, len) && Disjoint(a, n, pmmAddr, pmmSize))
  {
    hide HasFit;
    hide Ordered;
    hide InsideRam;
    hide Disjoint;
    FilledKempt(ms);
    hide Kempt;
    AllFilledFits(ms);
    assert AfterBoot(ms, []) == pmm.View();
    hide AfterBoot;
    hide Filled;
    hide WellFormedMap;
    hide PhysMmap.View;
    ghost var kernel, map_ := Range(start, len), Range(pmmAddr, pmmSize);
    assert [] + [kernel] == [kernel] && [kernel] + [map_] == [kernel, map_];
    ok := ReserveOne(ms, pmm, start, len, []);
    if ok {
      ok := ReserveOne(ms, pmm, pmmAddr, pmmSize, [kernel]);
    }
  }

  /** The last reservation; an empty module never has a place. */
  method ReserveModule(ghost ms: seq<MmapEntry>, pmm: PhysMmap, start: nat, len: nat, ghost kept: seq<Range>)
    returns (ok: bool)
    requires pmm.Shape() && Kempt(ms, kept, pmm.View()) && pmm.View() == AfterBoot(ms, kept)
    requires pmm.nbReserved < 3 && pmm.len + 2 <= pmm.entries.Length && start + len < ADDRESS_SPACE
    modifies pmm, pmm.entries
    ensures ok <==> len > 0 && HasFit(old(pmm.View()), start, len)
    ensures ok ==>
      && pmm.Shape()
      && Kempt(ms, kept + [Range(start, len)], pmm.View()) && pmm.View() == AfterBoot(ms, kept + [Range(start, len)])
  {
    hide HasFit;
    hide EmptyFit;
    hide Ordered;
    hide NotEmpty;
    hide AfterBoot;
    hide FromPieces;
    hide MapAfterBoot;
    if len > 0 {
      ok := ReserveOne(ms, pmm, start, len, kept);
    } else {
      NoEmptyFit(pmm.View(), start);
      ok := pmm.ReserveRegion(start, len);
    }
  }
}
