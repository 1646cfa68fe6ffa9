/** The physical memory map: an array of regions that is split and retyped in
    place (kernel/mem/phys_mem_map.c). */
module PhysMemMap {
  import opened Memory
  import MemMove
  import opened Regions

  const MAX_RESERVED: nat := 3  // kernel, memory map and module

  class PhysMmap {
    var len: nat
    var nbReserved: nat
    const entries: array<Entry>

    constructor (capacity: nat)
      ensures fresh(entries) && entries.Length == capacity && len == 0 && nbReserved == 0
    {
      entries := new Entry[capacity](_ => Entry(0, 0, 0));
      len, nbReserved := 0, 0;
    }

    ghost predicate Shape()
      reads this
    {
      len <= entries.Length
    }

    ghost function View(): Entries
      requires Shape()
      reads this, entries
    {
      entries[..len]
    }

    /** split_region.  The caller provides room for one more entry. */
    method SplitRegion(entry: nat, addr: nat) returns (ok: bool)
      requires Shape() && Ordered(View()) && (entry < len ==> len < entries.Length)
      modifies this`len, entries
      ensures Shape()
      ensures ok <==> entry < old(len) && old(entries[entry].addr) < addr < old(entries[entry].WrappedEnd())
      ensures !ok ==> View() == old(View())
      ensures ok ==> View() == Split(old(View()), entry, addr)
    {
      hide Ordered;
      hide Split;
      if entry >= len {
        return false;
      }
      EntryEnds(View(), entry);
      var pmme := entries[entry];
      if addr <= pmme.addr || addr >= Sum32(pmme.addr, pmme.len) {
        return false;
      }
      ghost var before := entries[..];
      MemMove.Move(entries, entry + 2, entry + 1, len - (entry + 1));
      len := len + 1;
      var nextLen := pmme.len - (addr - pmme.addr);
      entries[entry + 1] := Entry(addr, nextLen, pmme.kind);
      entries[entry] := pmme.(len := pmme.len - nextLen);
      SplitInPlace(before, entries[..], len - 1, entry, addr);
      assert before[..len - 1] == old(View()) && entries[..][..len] == View();
      return true;
    }

    /** The search of reserve_region: the first available entry that holds the range. */
    method FindFit(addr: nat, size: nat) returns (entry: nat)
      requires Shape()
      ensures entry <= len
      ensures entry < len ==> FirstFit(View(), addr, size, entry)
      ensures entry == len ==> forall i :: 0 <= i < |View()| ==> !Fits(View()[i], addr, size)
    {
      entry := 0;
      while entry < len
        invariant entry <= len
        invariant forall i :: 0 <= i < entry ==> !Fits(entries[i], addr, size)
      {
        var pmme := entries[entry];
        if pmme.kind == AVAILABLE {
          if addr >= pmme.addr && addr + size <= Sum32(pmme.addr, pmme.len) {
            return;
          }
        }
        entry := entry + 1;
      }
    }

    /** reserve_region, with the source's retry after each split. */
    method ReserveRegion(addr: nat, size: nat) returns (ok: bool)
      requires Shape() && Ordered(View()) && (nbReserved < MAX_RESERVED ==> len + 2 <= entries.Length)
      requires addr + size < ADDRESS_SPACE && nbReserved <= MAX_RESERVED
      modifies this, entries
      ensures Shape() && Ordered(View()) && old(len) <= len <= old(len) + 2
      ensures size > 0 ==> (ok <==> old(nbReserved) < 3 && HasFit(old(View()), addr, size))
      ensures ok ==> ReservedIn(old(View()), View(), addr, size) && nbReserved == old(nbReserved) + 1
      ensures ok && size > 0 ==>
        exists k: nat :: FirstFit(old(View()), addr, size, k) && View() == Carve(old(View()), k, addr, size)
      ensures !ok ==> SameTypes(old(View()), View()) && nbReserved == old(nbReserved)
      ensures !ok && size > 0 ==> View() == old(View())
      ensures size == 0 ==> (ok <==> old(nbReserved) < 3 && EmptyFit(old(View()), addr))
    {
      hide Progress;
      hide Ordered;
      hide SameTypes;
      hide ReservedIn;
      hide HasFit;
      hide EmptyFit;
      hide Fits;
      hide Split;
      hide Splitting;
      hide Carve;
      NoProgress(View(), addr, size);
      if nbReserved == MAX_RESERVED {
        return false;
      }
      ghost var es, splits := View(), 0;
      ghost var k: nat := 0;
      while true
        invariant Shape() && nbReserved == old(nbReserved) && len == |es| + splits && splits <= 2
        invariant Progress(es, View(), addr, size, splits) && Ordered(View())
        invariant splits == 0 ==> View() == es
        invariant splits > 0 && size > 0 ==> Splitting(es, View(), k, addr, size, splits)
        decreases 2 - splits
      {
        var entry := FindFit(addr, size);
        ghost var fs := View();
        if entry == len {
          NoFitMeansNoSplit(es, fs, addr, size, splits);
          return false;
        }
        var pmme := entries[entry];
        if size > 0 && splits == 0 {
          k := entry;
          NotSplitYet(fs, entry, addr, size);
        }
        if pmme.len == size {
          if size > 0 {
            SplittingDone(es, fs, k, addr, size, splits, entry);
          }
          ReserveDone(es, fs, addr, size, splits, entry);
          entries[entry] := pmme.(kind := RESERVED);
          nbReserved := nbReserved + 1;
          assert View() == fs[entry := fs[entry].(kind := RESERVED)];
          return true;
        }
        var splitAddr := if addr > pmme.addr then addr else addr + size;
        AtMostTwo(es, fs, addr, size, splits, entry);
        ok := SplitRegion(entry, splitAddr);
        if !ok {
          SplitRefused(es, fs, addr, size, splits, entry);
          return false;
        }
        SplitProgress(es, fs, addr, size, splits, entry, splitAddr);
        if size > 0 {
          SplittingStep(es, fs, k, addr, size, splits, entry, splitAddr);
        }
        splits := splits + 1;
      }
    }

    lemma NotSplitYet(es: Entries, k: nat, addr: nat, size: nat)
      requires FirstFit(es, addr, size, k)
      ensures Splitting(es, es, k, addr, size, 0)
    {
    }

    lemma EntryEnds(es: Entries, k: nat)
      requires Ordered(es) && k < |es|
      ensures es[k].End() <= ADDRESS_SPACE
    {
    }
  }
}
