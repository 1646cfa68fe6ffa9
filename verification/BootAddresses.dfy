/** The outcome of the boot in plain addresses: which pages are mapped, and which
    memory is left to the allocator (kernel/mem/paging.c:93-140,
    kernel/mem/page_frame_allocator.c:390-405, kernel/mem/phys_mem_map.c:589-703). */
module BootAddresses {
  import opened Memory
  import opened MemoryBoot
  import opened PageTables
  import opened PagingBoot
  import opened BootPages
  import opened Wrappers

  /** Page p is one of the kernel, up to the one that holds kernel_end, of the
      video memory and the BIOS, of the allocator's metadata or of the module. */
  predicate MappedAtBoot(mbi: Multiboot, kernelEnd: nat, meta: nat, metaSize: nat, p: int) {
    var x := p * 4096;
    || 0x100000 <= x <= kernelEnd
    || 0xa0000 <= x < 0x100000
    || meta <= x < meta + metaSize
    || (mbi.hasMods && mbi.modsCount == 1 && mbi.modStart < mbi.modEnd && mbi.modStart < x + 4096 && x < mbi.modEnd)
  }

  lemma PagesByAddress(mbi: Multiboot, kernelEnd: nat, meta: nat, metaSize: nat, p: int)
    requires KERNEL_START < kernelEnd < TABLE_WINDOW
    requires forall i :: 0 <= i < |BootRanges(mbi, KERNEL_START, kernelEnd, meta, metaSize)| ==>
      BootRanges(mbi, KERNEL_START, kernelEnd, meta, metaSize)[i].Ok()
    ensures p in AllPages(BootRanges(mbi, KERNEL_START, kernelEnd, meta, metaSize)) <==>
            MappedAtBoot(mbi, kernelEnd, meta, metaSize, p)
  {
    hide PagesIn;
    var ranges := BootRanges(mbi, KERNEL_START, kernelEnd, meta, metaSize);
    KernelByAddress(kernelEnd, p);
    assert p in Pages(ranges[0]) <==> 0x100000 <= p * 4096 <= kernelEnd;
    assert p in Pages(ranges[1]) <==> 0xa0000 <= p * 4096 < 0x100000;
    assert p in Pages(ranges[2]) <==> meta <= p * 4096 < meta + metaSize;
    if |ranges| == 4 {
      ModuleByAddress(mbi.modStart, p);
      assert p in Pages(ranges[3]) <==> mbi.modStart < p * 4096 + 4096 && p * 4096 < mbi.modEnd;
    }
    hide Pages;
    if p in AllPages(ranges) {
      var i :| 0 <= i < |ranges| && p in Pages(ranges[i]);
    }
  }

  lemma KernelByAddress(kernelEnd: nat, p: int)
    requires kernelEnd < TABLE_WINDOW
    ensures p * 4096 < PageAlign(kernelEnd + 1) <==> p * 4096 <= kernelEnd
  {
    KernelLimit(kernelEnd);
    var limit := PageAlign(kernelEnd + 1);
    hide PageAlign;
    assert limit == limit / 4096 * 4096;
  }

  lemma ModuleByAddress(start: nat, p: int)
    ensures start - start % 4096 <= p * 4096 <==> start < p * 4096 + 4096
  {
    assert start - start % 4096 == start / 4096 * 4096;
  }

  /** Below the page-table window exactly the boot's pages are mapped, each to
      itself. */
  ghost predicate MapsBoot(m: Ram, dir: Frame, mbi: Multiboot, kernelEnd: nat, meta: nat, metaSize: nat) {
    forall v: Frame :: v < 0xffc00 ==>
      Walk(m, dir, v) == if MappedAtBoot(mbi, kernelEnd, meta, metaSize, v) then Some(v) else None
  }

  /** So it is still outside the pages of the allocator. */
  ghost predicate KeepsBoot(m: Ram, dir: Frame, managed: set<int>, mbi: Multiboot, kernelEnd: nat,
                            meta: nat, metaSize: nat) {
    forall v: Frame :: v < 0xffc00 && v !in managed ==>
      Walk(m, dir, v) == if MappedAtBoot(mbi, kernelEnd, meta, metaSize, v) then Some(v) else None
  }

  lemma IdentityMapsBoot(m: Ram, dir: Frame, mbi: Multiboot, kernelEnd: nat, meta: nat, metaSize: nat, pages: set<int>)
    requires IdentityOnly(m, dir, pages) && forall p :: p in pages <==> MappedAtBoot(mbi, kernelEnd, meta, metaSize, p)
    ensures MapsBoot(m, dir, mbi, kernelEnd, meta, metaSize)
  {
    hide Walk;
    hide MappedAtBoot;
  }

  /** What the kernel keeps: its image, the memory map of 12 bytes an entry, and
      the module. */
  predicate KeptByAddress(mbi: Multiboot, nbEntries: nat, kernelEnd: nat, pmmAddr: nat, x: int) {
    var hasModule := mbi.hasMods && mbi.modsCount == 1;
    || 0x100000 <= x < kernelEnd
    || pmmAddr <= x < pmmAddr + 4 + 36 * (nbEntries + if hasModule then 3 else 2)
    || (hasModule && mbi.modStart <= x < mbi.modEnd)
  }

  /** Byte x is high memory below four gigabytes in an entry that the boot loader calls available, and
      neither the kernel nor the allocator keeps it. */
  ghost predicate ByteIsFree(mbi: Multiboot, ms: seq<MmapEntry>, kernelEnd: nat, pmmAddr: nat, meta: nat, metaSize: nat,
                           x: int) {
    && 0x100000 <= x < 0x1_0000_0000
    && (exists i :: 0 <= i < |ms| && ms[i].kind == 1 && ms[i].addr <= x < ms[i].addr + ms[i].len)
    && !KeptByAddress(mbi, |ms|, kernelEnd, pmmAddr, x) && !(meta <= x < meta + metaSize)
  }

  /** All bytes of page p are free and in one entry. */
  ghost predicate PageIsFree(mbi: Multiboot, ms: seq<MmapEntry>, kernelEnd: nat, pmmAddr: nat, meta: nat, metaSize: nat,
                           p: int) {
    && (exists i ::
          0 <= i < |ms| && ms[i].kind == 1 && ms[i].addr <= p * 4096 && p * 4096 + 4096 <= ms[i].addr + ms[i].len)
    && forall x :: p * 4096 <= x < p * 4096 + 4096 ==> ByteIsFree(mbi, ms, kernelEnd, pmmAddr, meta, metaSize, x)
  }

  /** The ranges that the boot reserves. */
  function BootKept(mbi: Multiboot, nbEntries: nat, kernelEnd: nat, pmmAddr: nat): seq<Range>
    requires KERNEL_START <= kernelEnd
  {
    Kept(mbi, KERNEL_START, kernelEnd, pmmAddr, PmmSize(nbEntries, mbi.HasModule()))
  }

  lemma HoldsIs(ms: seq<MmapEntry>, i: nat, start: int, len: nat)
    requires RamFits(multiset(ms)) && i < |ms| && 0 < len && start + len <= 0x1_0000_0000
    ensures Holds(ms[i], start, len) <==>
            ms[i].kind == 1 && ms[i].addr <= start && start + len <= ms[i].addr + ms[i].len
  {
    assert ms[i] in multiset(ms);
  }

  /** No range that is kept meets the page exactly when no byte of it is kept. */
  lemma KeptPage(mbi: Multiboot, nbEntries: nat, kernelEnd: nat, pmmAddr: nat, p: int)
    requires KERNEL_START < kernelEnd && (mbi.HasModule() ==> mbi.modStart < mbi.modEnd)
    ensures var kept := BootKept(mbi, nbEntries, kernelEnd, pmmAddr);
      (forall k :: 0 <= k < |kept| ==> Disjoint(p * PAGE_SIZE, PAGE_SIZE, kept[k].start, kept[k].len)) <==>
      forall x :: p * 4096 <= x < p * 4096 + 4096 ==> !KeptByAddress(mbi, nbEntries, kernelEnd, pmmAddr, x)
  {
    var kept, start := BootKept(mbi, nbEntries, kernelEnd, pmmAddr), p * 4096;
    assert kept[0] == Range(0x100000, kernelEnd - 0x100000);
    assert kept[1] == Range(pmmAddr, 4 + 36 * (nbEntries + if mbi.HasModule() then 3 else 2));
    assert mbi.HasModule() ==> kept[2] == Range(mbi.modStart, mbi.modEnd - mbi.modStart);
    if forall x :: start <= x < start + 4096 ==> !KeptByAddress(mbi, nbEntries, kernelEnd, pmmAddr, x) {
      forall k | 0 <= k < |kept|
        ensures Disjoint(start, 4096, kept[k].start, kept[k].len)
      {
        var y := if start < kept[k].start then kept[k].start else start;
        assert start <= y < start + 4096 ==> !KeptByAddress(mbi, nbEntries, kernelEnd, pmmAddr, y);
      }
    }
    if forall k :: 0 <= k < |kept| ==> Disjoint(start, 4096, kept[k].start, kept[k].len) {
      assert Disjoint(start, 4096, kept[0].start, kept[0].len) && Disjoint(start, 4096, kept[1].start, kept[1].len);
      assert mbi.HasModule() ==> Disjoint(start, 4096, kept[2].start, kept[2].len);
    }
  }

  /** The pages of the allocator are exactly the free ones. */
  lemma UsableIsFree(mbi: Multiboot, ms: seq<MmapEntry>, kernelEnd: nat, pmmAddr: nat, meta: nat, metaSize: nat, p: int)
    requires KERNEL_START < kernelEnd && RamFits(multiset(ms)) && (mbi.HasModule() ==> mbi.modStart < mbi.modEnd)
    requires metaSize > 0
    ensures UsablePage(ms, BootKept(mbi, |ms|, kernelEnd, pmmAddr), meta, metaSize, p) <==>
            PageIsFree(mbi, ms, kernelEnd, pmmAddr, meta, metaSize, p)
  {
    KeptPage(mbi, |ms|, kernelEnd, pmmAddr, p);
    hide BootKept;
    hide KeptByAddress;
    hide RamFits;
    hide Holds;
    var start := p * 4096;
    if UsablePage(ms, BootKept(mbi, |ms|, kernelEnd, pmmAddr), meta, metaSize, p) {
      var i :| 0 <= i < |ms| && Holds(ms[i], start, PAGE_SIZE);
      HoldsBelow(ms, i, start);
      HoldsIs(ms, i, start, 4096);
    }
    if PageIsFree(mbi, ms, kernelEnd, pmmAddr, meta, metaSize, p) {
      assert ByteIsFree(mbi, ms, kernelEnd, pmmAddr, meta, metaSize, start);
      assert ByteIsFree(mbi, ms, kernelEnd, pmmAddr, meta, metaSize, start + 4095);
      var i :|
        0 <= i < |ms| && ms[i].kind == 1 && ms[i].addr <= p * 4096 && p * 4096 + 4096 <= ms[i].addr + ms[i].len;
      HoldsIs(ms, i, start, 4096);
      assert Holds(ms[i], p * PAGE_SIZE, PAGE_SIZE);
      var y := if start < meta then meta else start;
      assert start <= y < start + 4096 ==> ByteIsFree(mbi, ms, kernelEnd, pmmAddr, meta, metaSize, y);
      forall x | start <= x < start + 4096 ensures !KeptByAddress(mbi, |ms|, kernelEnd, pmmAddr, x) {
        assert ByteIsFree(mbi, ms, kernelEnd, pmmAddr, meta, metaSize, x);
      }
    }
  }

  lemma HoldsBelow(ms: seq<MmapEntry>, i: nat, start: int)
    requires RamFits(multiset(ms)) && i < |ms| && Holds(ms[i], start, 4096)
    ensures start + 4096 <= TABLE_WINDOW
  {
    assert ms[i] in multiset(ms);
  }

  lemma OwnedIsFree(mbi: Multiboot, ms: seq<MmapEntry>, kernelEnd: nat, pmmAddr: nat, meta: nat, metaSize: nat,
                    managed: set<int>)
    requires KERNEL_START < kernelEnd && RamFits(multiset(ms)) && (mbi.HasModule() ==> mbi.modStart < mbi.modEnd)
    requires metaSize > 0 && OwnsMemory(ms, BootKept(mbi, |ms|, kernelEnd, pmmAddr), meta, metaSize, managed)
    ensures forall p :: p in managed <==> PageIsFree(mbi, ms, kernelEnd, pmmAddr, meta, metaSize, p)
  {
    hide UsablePage;
    hide PageIsFree;
    hide RamFits;
    hide BootKept;
    forall p ensures p in managed <==> PageIsFree(mbi, ms, kernelEnd, pmmAddr, meta, metaSize, p) {
      UsableIsFree(mbi, ms, kernelEnd, pmmAddr, meta, metaSize, p);
      assert p in managed <==> UsablePage(ms, BootKept(mbi, |ms|, kernelEnd, pmmAddr), meta, metaSize, p);
    }
  }

  lemma PageHasByte(mbi: Multiboot, ms: seq<MmapEntry>, kernelEnd: nat, pmmAddr: nat, meta: nat, metaSize: nat, x: int)
    requires PageIsFree(mbi, ms, kernelEnd, pmmAddr, meta, metaSize, x / 4096)
    ensures ByteIsFree(mbi, ms, kernelEnd, pmmAddr, meta, metaSize, x)
  {
    hide ByteIsFree;
  }
}
