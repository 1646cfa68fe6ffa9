/** Mapping and unmapping of pages through the self-mapped directory
    (kernel/mem/paging.c). */
module Paging {
  import opened Memory
  import opened Pagemap
  import opened FirstFit
  import opened FrameAllocator
  import opened PageFlags
  import opened PageTables
  import opened Wrappers

  function DirectoryIndex(virt: Address): nat {
    virt / 0x400000
  }

  function TableIndex(virt: Address): nat {
    virt / PAGE_SIZE % NB_SLOTS
  }

  // AlreadyMapped and OutOfMemory are the panics of map_page, after which the
  // kernel stops.
  datatype MapResult = Mapped | Refused | AlreadyMapped | OutOfMemory

  // WindowUnmapped is the panic on a page of the self-mapping slot.
  datatype UnmapResult = Unmapped | NotUnmapped | WindowUnmapped

  class Mmu {
    // Physical memory, as words: frame number and index in the frame.
    const ram: array2<Word>
    const pfa: Allocator

    var cr3: Frame
    var pageDirectory: Address
    var pagingEnabled: bool

    ghost var dir: Frame       // frame of the directory
    ghost var owned: set<int>  // frames of the directory and of the tables

    constructor (ram: array2<Word>, pfa: Allocator)
      ensures this.ram == ram && this.pfa == pfa && !pagingEnabled
    {
      this.ram, this.pfa := ram, pfa;
      cr3, pageDirectory, pagingEnabled := 0, 0, false;
      dir, owned := 0, {};
    }

    ghost predicate Shape() {
      ram.Length0 == NB_FRAMES && ram.Length1 == NB_SLOTS
    }

    ghost function Contents(): (m: Ram)
      requires Shape()
      reads ram
      ensures forall f, i :: 0 <= f < NB_FRAMES && 0 <= i < NB_SLOTS ==> m[f][i] == ram[f, i]
    {
      seq(NB_FRAMES, f requires 0 <= f < NB_FRAMES reads ram =>
        seq(NB_SLOTS, i requires 0 <= i < NB_SLOTS reads ram => ram[f, i]))
    }

    /** The directory slots with a page table. */
    ghost function Slots(): set<int>
      requires Shape()
      reads this, ram
    {
      TableSlots(Contents(), dir)
    }

    /** The register and the pointer agree on where the directory is. */
    ghost predicate Located()
      reads this
    {
      if pagingEnabled then cr3 == dir && pageDirectory == DIRECTORY_WINDOW else pageDirectory == dir * PAGE_SIZE
    }

    ghost predicate Valid()
      reads this, ram, pfa, pfa.Repr
    {
      && Shape()
      && Located()
      && pfa.Valid()
      && ram !in pfa.Repr && this !in pfa.Repr
      && Sound(Contents(), dir, owned)
      && (forall f :: f in owned ==> f in pfa.live && pfa.live[f] == 1)
    }

    lemma HasShape()
      requires Valid()
      ensures Shape()
    {
    }

    /** Physical address that an access to addr reaches. */
    ghost function Effective(addr: Address): Option<Address>
      requires Shape()
      reads this, ram
    {
      if pagingEnabled then Translate(Contents(), dir, addr) else Some(addr)
    }

    /** Reads the word that addr reaches; the address must be mapped, or the processor faults. */
    method Load(addr: Address, ghost frame: Frame, ghost slot: nat) returns (w: Word)
      requires Shape() && (pagingEnabled ==> cr3 == dir)
      requires slot < NB_SLOTS && Effective(addr) == Some(frame * PAGE_SIZE + 4 * slot)
      ensures w == Contents()[frame][slot]
    {
      var phys := addr;
      if pagingEnabled {
        var pde := ram[cr3, DirectoryIndex(addr)];
        var pte := ram[pde.frame, TableIndex(addr)];
        phys := pte.frame * PAGE_SIZE + addr % PAGE_SIZE;
      }
      return ram[phys / PAGE_SIZE, phys % PAGE_SIZE / 4];
    }

    method Store(addr: Address, w: Word, ghost frame: Frame, ghost slot: nat)
      requires Shape() && (pagingEnabled ==> cr3 == dir)
      requires slot < NB_SLOTS && Effective(addr) == Some(frame * PAGE_SIZE + 4 * slot)
      modifies ram
      ensures Contents() == Put(old(Contents()), frame, slot, w)
    {
      ghost var m := Contents();
      var phys := addr;
      if pagingEnabled {
        var pde := ram[cr3, DirectoryIndex(addr)];
        var pte := ram[pde.frame, TableIndex(addr)];
        phys := pte.frame * PAGE_SIZE + addr % PAGE_SIZE;
      }
      assert phys / PAGE_SIZE == frame && phys % PAGE_SIZE / 4 == slot;
      ram[phys / PAGE_SIZE, phys % PAGE_SIZE / 4] := w;
      ghost var n, p := Contents(), Put(m, frame, slot, w);
      assert forall f :: 0 <= f < NB_FRAMES ==> n[f] == p[f];
    }

    /** Where the entries of the table of slot pd are accessed. */
    function TableAddress(pd: nat, frame: Frame): Address
      requires pd < NB_SLOTS
      reads this
    {
      if pagingEnabled then TABLE_WINDOW + pd * PAGE_SIZE else frame * PAGE_SIZE
    }

    /** With paging on or off, the code reaches the same physical entries. */
    lemma SameEntry(pd: nat, pt: nat)
      requires Shape() && Located() && SelfMapped(Contents(), dir) && pd < NB_SLOTS && pt < NB_SLOTS
      ensures Effective(pageDirectory + 4 * pd) == Some(dir * PAGE_SIZE + 4 * pd)
      ensures IsPresent(Contents()[dir][pd].flags) ==>
        var table := Contents()[dir][pd].frame;
        Effective(TableAddress(pd, table) + 4 * pt) == Some(table * PAGE_SIZE + 4 * pt)
    {
      SelfMap(Contents(), dir, pd, pt);
    }

    /** Makes frame nf the table of slot pd, with every entry not present. */
    method WriteTable(pd: nat, nf: Frame, flags: Flags)
      requires Shape() && Located() && SelfMapped(Contents(), dir)
      requires pd < SELF_SLOT && nf != dir
      modifies ram
      ensures Contents() == AddTable(old(Contents()), dir, pd, nf, flags)
    {
      hide Effective;
      SameEntry(pd, 0);
      Store(pageDirectory + 4 * pd, Word(nf, DirectoryFlags(flags)), dir, pd);
      ghost var m := Contents();
      var table := TableAddress(pd, nf);
      for k := 0 to NB_SLOTS
        invariant forall f :: 0 <= f < NB_FRAMES && f != nf ==> Contents()[f] == m[f]
        invariant forall j :: 0 <= j < k ==> Contents()[nf][j] == Word(0, ClearPresent(flags))
      {
        SameEntry(pd, k);
        Store(table + 4 * k, Word(0, ClearPresent(flags)), nf, k);
      }
      assert Contents()[nf] == BlankTable(flags);
      assert Contents() == m[nf := BlankTable(flags)];
    }

    /** The second half of new_page_table, once there is a frame. */
    method InstallTable(pd: nat, nf: Frame, flags: Flags) returns (table: Address)
      requires Shape() && Located() && Sound(Contents(), dir, owned)
      requires pd < SELF_SLOT && !HasTable(Contents(), dir, pd) && nf !in owned
      modifies ram, `owned
      ensures Sound(Contents(), dir, owned) && owned == old(owned) + {nf} && table == TableAddress(pd, nf)
      ensures HasTable(Contents(), dir, pd)
      ensures Contents()[dir][pd].frame == nf && Shared(Contents()[dir][pd].flags) == Shared(flags)
      ensures SameWalks(old(Contents()), Contents(), dir, {})
      ensures Uniform(old(Contents()), dir, flags) ==> Uniform(Contents(), dir, flags)
      ensures TableSlots(Contents(), dir) == TableSlots(old(Contents()), dir) + {pd}
    {
      hide Effective;
      hide AddTable;
      hide TableSlots;
      hide Tables;
      hide ConsistentFlags;
      hide SameWalks;
      hide Uniform;
      ghost var m := Contents();
      TablesHaveDirectory(m, dir, owned);
      AddTableSound(m, dir, owned, pd, nf, flags);
      AddTableWalks(m, dir, owned, pd, nf, flags);
      AddTableEntry(m, dir, pd, nf, flags);
      WriteTable(pd, nf, flags);
      owned := owned + {nf};
      table := TableAddress(pd, nf);
    }

    /** A frame for a table, from the frame allocator. */
    method TakeFrame() returns (phys: nat)
      requires Valid()
      modifies pfa.Repr
      ensures Valid()
      ensures phys == 0 <==> NoFreeRun(old(pfa.Maps()), 1)
      ensures phys == 0 ==> pfa.live == old(pfa.live) && pfa.Maps() == old(pfa.Maps())
      ensures phys != 0 ==>
        && 0 < phys / PAGE_SIZE < NB_FRAMES
        && phys / PAGE_SIZE !in old(pfa.live) && phys / PAGE_SIZE in pfa.managed && phys / PAGE_SIZE !in owned
        && pfa.live == old(pfa.live)[phys / PAGE_SIZE := 1]
        && pfa.Maps() == Take(old(pfa.Maps()), 1)
    {
      hide Allocator.Valid;
      hide NoRun;
      hide IsFirstFit;
      hide Sound;
      hide Mark;
      ghost var r, i, maps := 0, 0, pfa.Maps();
      phys, r, i := pfa.Alloc(1);
      if phys != 0 {
        assert FirstRun(maps, r, i, 1);
        FirstIs(maps, r, i, 1);
        pfa.LiveManaged(PageOf(phys));
        assert InRam(PageOf(phys));
      }
    }

    /** new_page_table: NULL (0) leaves everything alone. */
    method NewPageTable(pd: nat, flags: Flags) returns (table: Address, ghost nf: Frame)
      requires Valid() && pd < SELF_SLOT
      modifies ram, `owned, pfa.Repr
      ensures Valid()
      ensures table == 0 <==>
              HasTable(old(Contents()), dir, pd) || NoFreeRun(old(pfa.Maps()), 1)
      ensures table == 0 ==> Contents() == old(Contents()) && owned == old(owned)
      ensures table == 0 ==> pfa.live == old(pfa.live) && pfa.Maps() == old(pfa.Maps())
      ensures table != 0 ==>
                && nf !in old(pfa.live) && nf in pfa.managed
                && pfa.live == old(pfa.live)[nf := 1]
                && owned == old(owned) + {nf}
                && table == TableAddress(pd, nf)
                && HasTable(Contents(), dir, pd)
                && Contents()[dir][pd].frame == nf && Shared(Contents()[dir][pd].flags) == Shared(flags)
                && SameWalks(old(Contents()), Contents(), dir, {})
                && (Uniform(old(Contents()), dir, flags) ==> Uniform(Contents(), dir, flags))
                && TableSlots(Contents(), dir) == TableSlots(old(Contents()), dir) + {pd}
                && pfa.Maps() == Take(old(pfa.Maps()), 1)
    {
      hide Allocator.Valid;
      hide Effective;
      hide AddTable;
      hide Tables;
      hide ConsistentFlags;
      hide NoFreeRun;
      hide TableSlots;
      hide SameWalks;
      hide Uniform;
      hide Sound;
      hide SelfMapped;
      nf := 0;
      SoundSelfMapped(Contents(), dir, owned);
      SameEntry(pd, 0);
      var pde := Load(pageDirectory + 4 * pd, dir, pd);
      if IsPresent(pde.flags) {
        return 0, nf;
      }
      var phys := TakeFrame();
      if phys == 0 {
        return 0, nf;
      }
      nf := phys / PAGE_SIZE;
      table := InstallTable(pd, phys / PAGE_SIZE, flags);
    }

    ghost predicate BadArguments(phys: Address, virt: Address, flags: Word) {
      !Aligned(phys) || !Aligned(virt) || flags.frame != 0
    }

    /** There is a table for the address; in the self-mapping slot it is the directory. */
    ghost predicate Present(m: Ram, pd: nat)
      requires pd < NB_SLOTS
      reads this
    {
      IsPresent(m[dir][pd].flags)
    }

    /** Stores the entry of one virtual page. */
    method WriteEntry(virt: Address, table: Address, w: Word)
      requires Valid() && HasTable(Contents(), dir, DirectoryIndex(virt))
      requires Shared(w.flags) == Shared(Contents()[dir][DirectoryIndex(virt)].flags)
      requires table == TableAddress(DirectoryIndex(virt), Contents()[dir][DirectoryIndex(virt)].frame)
      modifies ram
      ensures Valid()
      ensures SameWalks(old(Contents()), Contents(), dir, {virt / PAGE_SIZE})
      ensures Walk(Contents(), dir, virt / PAGE_SIZE) == if IsPresent(w.flags) then Some(w.frame) else None
      ensures Contents()[dir] == old(Contents())[dir]
    {
      hide Allocator.Valid;
      hide Effective;
      hide Tables;
      hide ConsistentFlags;
      hide SameWalks;
      hide Walk;
      var pt := TableIndex(virt);
      PageIndexes(virt);
      SameEntry(DirectoryIndex(virt), pt);
      PutEntry(Contents(), dir, owned, virt / PAGE_SIZE, w);
      Store(table + 4 * pt, w, Contents()[dir][DirectoryIndex(virt)].frame, pt);
    }

    /** The last store of map_page, for an entry that is not present. */
    method SetEntry(virt: Address, table: Address, w: Word)
      requires Valid() && Present(Contents(), DirectoryIndex(virt)) && IsPresent(w.flags)
      requires Shared(w.flags) == Shared(Contents()[dir][DirectoryIndex(virt)].flags)
      requires table == TableAddress(DirectoryIndex(virt), Contents()[dir][DirectoryIndex(virt)].frame)
      requires Walk(Contents(), dir, virt / PAGE_SIZE) == None
      modifies ram
      ensures Walk(Contents(), dir, virt / PAGE_SIZE) == Some(w.frame)
      ensures DirectoryIndex(virt) != SELF_SLOT ==>
        && Valid() && SameWalks(old(Contents()), Contents(), dir, {virt / PAGE_SIZE})
        && Contents()[dir] == old(Contents())[dir]
      ensures DirectoryIndex(virt) == SELF_SLOT ==>
        !Valid() && Contents() == Put(old(Contents()), dir, TableIndex(virt), w)
    {
      hide Allocator.Valid;
      hide Effective;
      hide Tables;
      hide ConsistentFlags;
      hide SameWalks;
      hide Walk;
      hide Put;
      ghost var m, pd := Contents(), DirectoryIndex(virt);
      var pt := TableIndex(virt);
      PageIndexes(virt);
      SameEntry(pd, pt);
      if pd == SELF_SLOT {
        WindowWalk(m, dir, pt);
        WindowEntryBreaks(m, dir, owned, pt, w);
      } else {
        PutEntry(m, dir, owned, virt / PAGE_SIZE, w);
      }
      Store(table + 4 * pt, w, m[dir][pd].frame, pt);
    }

    lemma PageIndexes(virt: Address)
      ensures DirectoryIndex(virt) == virt / PAGE_SIZE / NB_SLOTS && TableIndex(virt) == virt / PAGE_SIZE % NB_SLOTS
      ensures DirectoryIndex(virt) == SELF_SLOT ==> virt / PAGE_SIZE == WINDOW_PAGE + TableIndex(virt)
    {
    }

    /** The table that is there already: Mapped stands for a free entry. */
    method OldTable(virt: Address, flags: Flags, pde: Word) returns (r: MapResult, table: Address)
      requires Valid() && pde == Contents()[dir][DirectoryIndex(virt)] && IsPresent(pde.flags)
      ensures r != OutOfMemory
      ensures r == Refused <==> Shared(flags) != Shared(pde.flags)
      ensures r == AlreadyMapped ==> Walk(Contents(), dir, virt / PAGE_SIZE).Some?
      ensures r == Mapped ==>
        Walk(Contents(), dir, virt / PAGE_SIZE) == None && table == TableAddress(DirectoryIndex(virt), pde.frame)
    {
      hide Allocator.Valid;
      hide Effective;
      hide Tables;
      hide ConsistentFlags;
      table := 0;
      if Shared(flags) != Shared(pde.flags) {
        return Refused, table;
      }
      var pd, pt := DirectoryIndex(virt), TableIndex(virt);
      PageIndexes(virt);
      SameEntry(pd, pt);
      table := TableAddress(pd, pde.frame);
      var pte := Load(table + 4 * pt, pde.frame, pt);
      return if IsPresent(pte.flags) then AlreadyMapped else Mapped, table;
    }

    /** map_page up to the store: Mapped stands for a table whose entry is free. */
    method FindTable(virt: Address, flags: Flags) returns (r: MapResult, table: Address, ghost nf: Frame)
      requires Valid()
      modifies ram, `owned, pfa.Repr
      ensures Valid()
      ensures var m, pd, vpn := old(Contents()), DirectoryIndex(virt), virt / PAGE_SIZE;
        && (r == Refused <==> Present(m, pd) && Shared(flags) != Shared(m[dir][pd].flags))
        && (r == AlreadyMapped ==> Present(m, pd) && Walk(m, dir, vpn).Some?)
        && (r == OutOfMemory <==> !Present(m, pd) && NoFreeRun(old(pfa.Maps()), 1))
        && (r == Mapped ==>
              && Walk(m, dir, vpn) == None && Walk(Contents(), dir, vpn) == None
              && SameWalks(m, Contents(), dir, {})
              && Present(Contents(), pd) && Shared(Contents()[dir][pd].flags) == Shared(flags)
              && table == TableAddress(pd, Contents()[dir][pd].frame))
      ensures r != Mapped || Present(old(Contents()), DirectoryIndex(virt)) ==>
        && Contents() == old(Contents())
        && owned == old(owned) && pfa.live == old(pfa.live) && pfa.Maps() == old(pfa.Maps())
      ensures r == Mapped && !Present(old(Contents()), DirectoryIndex(virt)) ==>
        && nf !in old(pfa.live) && nf in pfa.managed
        && pfa.live == old(pfa.live)[nf := 1] && owned == old(owned) + {nf}
        && TableSlots(Contents(), dir) == TableSlots(old(Contents()), dir) + {DirectoryIndex(virt)}
        && pfa.Maps() == Take(old(pfa.Maps()), 1)
      ensures Uniform(old(Contents()), dir, flags) ==> Uniform(Contents(), dir, flags)
    {
      hide Allocator.Valid;
      hide Effective;
      hide Tables;
      hide ConsistentFlags;
      hide TableSlots;
      hide NoFreeRun;
      hide SameWalks;
      hide Uniform;
      nf, table := 0, 0;
      ghost var m := Contents();
      var pd := DirectoryIndex(virt);
      PageIndexes(virt);
      SameEntry(pd, 0);
      var pde := Load(pageDirectory + 4 * pd, dir, pd);
      if !IsPresent(pde.flags) {
        table, nf := NewPageTable(pd, flags);
        if table == 0 {
          return OutOfMemory, table, nf;
        }
        SameWalk(m, Contents(), dir, virt / PAGE_SIZE);
        return Mapped, table, nf;
      }
      r, table := OldTable(virt, flags, pde);
      SameAsBefore(m, dir);
    }

    /** map_page.  Each outcome has its exact condition; all but Mapped leave the
        tables and the allocator alone, and Mapped binds one page.  In the
        self-mapping slot that page is a page table in the eyes of the processor,
        and the tables are no longer sound. */
    method MapPage(phys: Address, virt: Address, flags: Word) returns (r: MapResult, ghost nf: Frame)
      requires Valid()
      modifies ram, `owned, pfa.Repr
      ensures Valid() <==> !(r == Mapped && DirectoryIndex(virt) == SELF_SLOT)
      ensures var m, pd, vpn := old(Contents()), DirectoryIndex(virt), virt / PAGE_SIZE;
        && (r == Refused <==>
              || BadArguments(phys, virt, flags)
              || (Present(m, pd) && Shared(flags.flags) != Shared(m[dir][pd].flags)))
        && (r == AlreadyMapped ==> Present(m, pd) && Walk(m, dir, vpn).Some?)
        && (r == OutOfMemory <==>
              !BadArguments(phys, virt, flags) && !Present(m, pd) && NoFreeRun(old(pfa.Maps()), 1))
        && (r == Mapped ==>
              && Walk(m, dir, vpn) == None
              && Walk(Contents(), dir, vpn) == Some(phys / PAGE_SIZE)
              && (pd != SELF_SLOT ==> SameWalks(m, Contents(), dir, {vpn}))
              && (pd == SELF_SLOT ==>
                    Contents() == Put(m, dir, TableIndex(virt), Word(phys / PAGE_SIZE, SetPresent(flags.flags)))))
      ensures r != Mapped ==> Contents() == old(Contents())
      ensures r != Mapped || Present(old(Contents()), DirectoryIndex(virt)) ==>
        owned == old(owned) && pfa.live == old(pfa.live) && pfa.Maps() == old(pfa.Maps())
      ensures r == Mapped && !Present(old(Contents()), DirectoryIndex(virt)) ==>
        && nf !in old(pfa.live) && nf in pfa.managed
        && pfa.live == old(pfa.live)[nf := 1] && owned == old(owned) + {nf} && pfa.Maps() == Take(old(pfa.Maps()), 1)
      ensures r == Mapped && DirectoryIndex(virt) != SELF_SLOT ==>
        TableSlots(Contents(), dir) == TableSlots(old(Contents()), dir) + {DirectoryIndex(virt)}
      ensures DirectoryIndex(virt) != SELF_SLOT && Uniform(old(Contents()), dir, flags.flags) ==>
        Uniform(Contents(), dir, flags.flags)
    {
      hide Allocator.Valid;
      hide Sound;
      hide NoFreeRun;
      hide SameWalks;
      hide Uniform;
      hide Walk;
      hide Put;
      nf := 0;
      if phys % PAGE_SIZE != 0 || virt % PAGE_SIZE != 0 || flags.frame != 0 {
        return Refused, nf;
      }
      ghost var m := Contents();
      SoundSelfMapped(m, dir, owned);
      var table;
      r, table, nf := FindTable(virt, flags.flags);
      if r == Mapped {
        ghost var n := Contents();
        SetEntry(virt, table, Word(phys / PAGE_SIZE, SetPresent(flags.flags)));
        if DirectoryIndex(virt) != SELF_SLOT {
          JoinWalks(m, n, Contents(), dir, virt / PAGE_SIZE);
          UniformKept(n, Contents(), dir, flags.flags);
          SameSlots(n, Contents(), dir);
          assert Present(m, DirectoryIndex(virt)) ==> DirectoryIndex(virt) in TableSlots(m, dir);
        }
      }
    }

    /** unmap_page. */
    method UnmapPage(virt: Address) returns (r: UnmapResult)
      requires Valid()
      modifies ram
      ensures Valid()
      ensures r == Unmapped <==>
        Aligned(virt) && DirectoryIndex(virt) != SELF_SLOT && Walk(old(Contents()), dir, virt / PAGE_SIZE).Some?
      ensures r == WindowUnmapped <==> Aligned(virt) && DirectoryIndex(virt) == SELF_SLOT
      ensures r != Unmapped ==> Contents() == old(Contents())
      ensures r == Unmapped ==>
        && Walk(Contents(), dir, virt / PAGE_SIZE) == None
        && SameWalks(old(Contents()), Contents(), dir, {virt / PAGE_SIZE})
        && Contents()[dir] == old(Contents())[dir]
    {
      hide Allocator.Valid;
      hide Effective;
      hide Tables;
      hide SameWalks;
      var pd, pt := DirectoryIndex(virt), TableIndex(virt);
      PageIndexes(virt);
      if virt % PAGE_SIZE != 0 {
        return NotUnmapped;
      }
      if pd == SELF_SLOT {
        return WindowUnmapped;
      }
      SameEntry(pd, pt);
      var pde := Load(pageDirectory + 4 * pd, dir, pd);
      if !IsPresent(pde.flags) {
        return NotUnmapped;
      }
      var table := TableAddress(pd, pde.frame);
      var pte := Load(table + 4 * pt, pde.frame, pt);
      if !IsPresent(pte.flags) {
        return NotUnmapped;
      }
      assert HasTable(Contents(), dir, pd);
      WriteEntry(virt, table, Word(0, ClearPresent(pte.flags)));
      return Unmapped;
    }
  }
}
