/** kmalloc and kfree over the frame allocator and the page tables
    (kernel/mem/kmalloc.c). */
module Kmalloc {
  import opened Memory
  import opened PageFlags
  import opened PageTables
  import opened Pagemap
  import opened FirstFit
  import opened FrameAllocator
  import opened Paging
  import opened Blocks
  import opened HeapModel
  import opened HeapSteps
  import opened Powers
  import opened Rounding
  import opened Wrappers

  /** Among the managed pages exactly the mapped ones are mapped, each to itself. */
  ghost predicate MapsExactly(m: Ram, dir: Frame, managed: set<int>, mapped: set<int>) {
    forall p :: p in managed ==> 0 < p < WINDOW_PAGE && Walk(m, dir, p) == if p in mapped then Some(p) else None
  }

  /** Below the window, of the pages outside the allocator exactly those of the
      boot are mapped, each to itself. */
  ghost predicate Elsewhere(m: Ram, dir: Frame, managed: set<int>, boot: set<int>) {
    forall v: Frame :: v < WINDOW_PAGE && v !in managed ==> Walk(m, dir, v) == if v in boot then Some(v) else None
  }

  lemma ElsewhereStep(m: Ram, n: Ram, dir: Frame, managed: set<int>, boot: set<int>, p: Frame)
    requires Elsewhere(m, dir, managed, boot) && SameWalks(m, n, dir, {p}) && p in managed
    ensures Elsewhere(n, dir, managed, boot)
  {
  }

  /** Groups are only added, and only new ones become page tables. */
  ghost predicate Grew(groups: map<int, nat>, owned: set<int>, groups': map<int, nat>, owned': set<int>) {
    && (forall h :: h in groups ==> h in groups' && groups'[h] == groups[h])
    && (forall f :: f in owned' ==> f in owned || f !in groups)
    && owned <= owned'
  }

  /** Page p belongs to group h. */
  ghost predicate TakenBy(groups: map<int, nat>, p: int, h: int) {
    h in groups && h <= p < h + groups[h]
  }

  lemma GivenBackAgain(maps: seq<Pages>, mid: seq<Pages>, now: seq<Pages>, r: nat, i: nat, nbPages: nat)
    requires Taken(maps, mid, r, i, nbPages) && nbPages >= 1 && GivenBack(mid, now, r, i)
    ensures now == maps
  {
    hide Mark;
    hide Release;
    ReleaseUndoesMark(maps[r], i, nbPages);
  }

  lemma MmuGroups(mmu: Mmu)
    requires mmu.Valid()
    ensures GroupsApart(mmu.pfa.live)
  {
    hide Sound;
    hide Allocator.Valid;
    var pfa := mmu.pfa;
    forall p | p in pfa.live ensures pfa.live[p] >= 1 && p > 0 {
      pfa.LiveManaged(p);
      assert InRam(p);
    }
    forall p, q | p in pfa.live && q in pfa.live && p < q ensures p + pfa.live[p] <= q {
      pfa.LiveDisjoint(p, q);
    }
  }

  /** The state without blocks, big allocations and live addresses. */
  lemma EmptyHeap(groups: map<int, nat>, owned: set<int>)
    requires GroupsApart(groups)
    ensures Inv(State([], [], map[], groups, owned)) && MappedPages([], [], {})
  {
  }

  lemma InvLayout(s: State)
    requires Inv(s)
    ensures Layout(s)
  {
  }

  lemma MappedAt(s: State, mapped: set<int>, p: int)
    requires MappedPages(s.blocks, s.bigs, mapped)
    ensures p in mapped <==> InUse(s.blocks, s.bigs, p)
  {
  }

  lemma MapsAt(m: Ram, dir: Frame, managed: set<int>, mapped: set<int>, p: int)
    requires MapsExactly(m, dir, managed, mapped) && p in managed
    ensures 0 < p < WINDOW_PAGE && Walk(m, dir, p) == if p in mapped then Some(p) else None
  {
  }

  lemma MapsStep(m: Ram, n: Ram, dir: Frame, managed: set<int>, mapped: set<int>, p: Frame)
    requires MapsExactly(m, dir, managed, mapped) && SameWalks(m, n, dir, {p})
    requires Walk(n, dir, p) == Some(p)
    ensures MapsExactly(n, dir, managed, mapped + {p})
  {
  }

  lemma UnmapsStep(m: Ram, n: Ram, dir: Frame, managed: set<int>, mapped: set<int>, p: Frame)
    requires MapsExactly(m, dir, managed, mapped) && SameWalks(m, n, dir, {p})
    requires Walk(n, dir, p) == None
    ensures MapsExactly(n, dir, managed, mapped - {p})
  {
  }

  lemma GrewKeepsInv(s: State, groups: map<int, nat>, owned: set<int>)
    requires Inv(s) && GroupsApart(groups) && Grew(s.groups, s.owned, groups, owned)
    ensures Inv(s.(groups := groups, owned := owned))
  {
    forall f | f in owned && f !in s.groups ensures Unused(s, f) { NewGroupUnused(s, f); }
    GroupsStep(s, groups, owned);
  }

  lemma GrewOwned(groups: map<int, nat>, owned: set<int>, groups': map<int, nat>, owned': set<int>)
    requires Grew(groups, owned, groups', owned')
    ensures owned <= owned'
  {
  }

  lemma GrewTwice(groups: map<int, nat>, owned: set<int>, groups': map<int, nat>, owned': set<int>,
                  groups'': map<int, nat>, owned'': set<int>)
    requires Grew(groups, owned, groups', owned') && Grew(groups', owned', groups'', owned'')
    ensures Grew(groups, owned, groups'', owned'')
  {
  }

  lemma GrewGroup(groups: map<int, nat>, owned: set<int>, groups': map<int, nat>, owned': set<int>, h: int)
    requires Grew(groups, owned, groups', owned') && h in groups && h !in owned
    ensures h in groups' && groups'[h] == groups[h] && h !in owned'
  {
  }

  lemma GrewByOne(groups: map<int, nat>, owned: set<int>, h: int, n: nat)
    requires h !in groups
    ensures Grew(groups, owned, groups[h := n], owned)
  {
  }

  lemma NothingGrew(groups: map<int, nat>, owned: set<int>)
    ensures Grew(groups, owned, groups, owned)
  {
  }

  lemma SameUnused(s: State, t: State, h: int)
    requires s.blocks == t.blocks && s.bigs == t.bigs
    ensures Unused(s, h) <==> Unused(t, h)
  {
  }

  /** Groups that the heap did not use, it still does not use. */
  ghost predicate KeepsUnused(s: State, t: State) {
    forall h :: h in s.groups && Unused(s, h) ==> Unused(t, h)
  }

  lemma NewBlockKeepsUnused(s: State, t: State)
    requires s.bigs == t.bigs && t.blocks != [] && t.blocks[1..] == s.blocks && t.blocks[0].page !in s.groups
    ensures KeepsUnused(s, t)
  {
    forall h, i | h in s.groups && Unused(s, h) && 0 <= i < |t.blocks| ensures t.blocks[i].page != h {
      if i > 0 { assert t.blocks[i] == s.blocks[i - 1]; }
    }
  }

  lemma TakeKeepsUnused(s: State, i: nat, used: set<int>, live: map<int, nat>)
    requires i < |s.blocks|
    ensures forall h :: Unused(s.(blocks := s.blocks[i := s.blocks[i].(used := used)], live := live), h) <==>
      Unused(s, h)
  {
    var t := s.(blocks := s.blocks[i := s.blocks[i].(used := used)], live := live);
    forall h ensures Unused(t, h) <==> Unused(s, h) {
      assert forall k :: 0 <= k < |s.blocks| ==> t.blocks[k].page == s.blocks[k].page;
    }
  }

  class Heap {
    const mmu: Mmu
    var blocks: seq<Block>  // aha_block_list
    var bigs: seq<Big>      // aha_big_list

    ghost const boot: set<int>     // pages that are mapped from the boot on
    ghost const stray: set<int>    // those of them that belong to the allocator: its page tables

    ghost var live: map<int, nat>  // addresses handed out, with the sizes asked for
    ghost var mapped: set<int>     // pages of the heap
    ghost var Repr: set<object>    // blocks and their chunk maps

    ghost function Views(): seq<BlockView>
      reads `blocks, blocks
    {
      var list := blocks;
      seq(|list|, i requires 0 <= i < |list| reads list =>
        BlockView(PageOf(list[i].addr), list[i].firstPtr, list[i].eltSize, list[i].used))
    }

    ghost function S(): State
      reads this, blocks, mmu, mmu.pfa
    {
      State(Views(), bigs, live, mmu.pfa.live, mmu.owned)
    }

    ghost predicate Objects()
      reads `blocks, `Repr, Repr
    {
      && (forall i :: 0 <= i < |blocks| ==> blocks[i] in Repr && blocks[i].chunkmap in Repr && blocks[i].Valid())
      && (forall i, j :: 0 <= i < j < |blocks| ==> blocks[i] != blocks[j] && blocks[i].chunkmap != blocks[j].chunkmap)
    }

    ghost predicate Separate()
      reads `Repr
    {
      && this !in Repr && mmu !in Repr && mmu.pfa !in Repr && mmu.ram !in Repr
      && Repr !! mmu.pfa.Repr
      && this !in mmu.pfa.Repr && mmu !in mmu.pfa.Repr && mmu.ram !in mmu.pfa.Repr
    }

    /** All of the invariant but which pages are mapped. */
    ghost predicate Core()
      reads this, Repr, blocks, mmu, mmu.ram, mmu.pfa, mmu.pfa.Repr
    {
      && Separate()
      && Objects()
      && mmu.Valid()
      && Inv(S())
      && Uniform(mmu.Contents(), mmu.dir, RW_KERNEL_NOCACHE)
      && MapsExactly(mmu.Contents(), mmu.dir, mmu.pfa.managed, mapped + stray)
      && mapped !! stray && stray <= mmu.owned
      && Elsewhere(mmu.Contents(), mmu.dir, mmu.pfa.managed, boot)
    }

    ghost predicate Valid()
      reads this, Repr, blocks, mmu, mmu.ram, mmu.pfa, mmu.pfa.Repr
    {
      Core() && MappedPages(Views(), bigs, mapped)
    }

    /** The two empty lists, over page tables that map no managed page but page tables. */
    constructor (mmu: Mmu, ghost boot: set<int>, ghost stray: set<int>)
      requires mmu.Valid() && Uniform(mmu.Contents(), mmu.dir, RW_KERNEL_NOCACHE)
      requires MapsExactly(mmu.Contents(), mmu.dir, mmu.pfa.managed, stray) && stray <= mmu.owned
      requires Elsewhere(mmu.Contents(), mmu.dir, mmu.pfa.managed, boot)
      ensures Valid() && fresh(Repr) && this.mmu == mmu && this.stray == stray && this.boot == boot
      ensures blocks == [] && bigs == [] && live == map[]
    {
      hide Uniform;
      hide MapsExactly;
      hide Elsewhere;
      hide Sound;
      hide Allocator.Valid;
      hide Inv;
      this.mmu, this.boot, this.stray := mmu, boot, stray;
      blocks, bigs, live, mapped, Repr := [], [], map[], {}, {};
      new;
      MmuGroups(mmu);
      EmptyHeap(mmu.pfa.live, mmu.owned);
      assert Views() == [];
      assert mapped + stray == stray;
    }

    /** What the next answers depend on. */
    ghost function Now(): (m: Moment)
      requires mmu.Shape()
      reads this, blocks, mmu, mmu.ram, mmu.pfa, set i | 0 <= i < |mmu.pfa.regions| :: mmu.pfa.regions[i].pagemap
      ensures m.Shaped()
    {
      Moment(Views(), bigs, live, mmu.pfa.Maps(), mmu.pfa.Firsts(), mmu.Slots())
    }

    lemma NowParts()
      requires mmu.Shape()
      ensures Now().blocks == Views() && Now().bigs == bigs && Now().live == live && Now().maps == mmu.pfa.Maps()
    {
    }

    /** map_page with the flags of the heap: it is never refused. */
    method MapToItself(addr: nat) returns (r: MapResult)
      requires Core() && addr < TABLE_WINDOW && Aligned(addr) && PageOf(addr) in mmu.pfa.managed
      modifies mmu`owned, mmu.ram, mmu.pfa.Repr
      ensures mmu.Valid() && Uniform(mmu.Contents(), mmu.dir, RW_KERNEL_NOCACHE)
      ensures r != Refused
      ensures r == AlreadyMapped <==> PageOf(addr) in mapped + stray
      ensures r == OutOfMemory <==> PageOf(addr) !in mapped + stray && !CanMap(old(Now()), {PageOf(addr)})
      ensures r == Mapped ==>
        && MapsExactly(mmu.Contents(), mmu.dir, mmu.pfa.managed, mapped + stray + {PageOf(addr)})
        && Elsewhere(mmu.Contents(), mmu.dir, mmu.pfa.managed, boot)
        && Grew(old(mmu.pfa.live), old(mmu.owned), mmu.pfa.live, mmu.owned)
        && Now() == MapPages(old(Now()), {PageOf(addr)})
    {
      hide Objects;
      hide Views;
      hide Inv;
      hide MapsExactly;
      hide Elsewhere;
      hide Uniform;
      hide SameWalks;
      hide Sound;
      hide Allocator.Valid;
      hide Block.Valid;
      hide NoFreeRun;
      hide TableSlots;
      hide SlotsOf;
      hide Mappable;
      hide MapsAfter;
      Footprint();
      ghost var m, page, slot := mmu.Contents(), PageOf(addr), DirectoryIndex(addr);
      MapsAt(m, mmu.dir, mmu.pfa.managed, mapped + stray, page);
      UniformPde(m, mmu.dir, RW_KERNEL_NOCACHE, slot);
      mmu.PageIndexes(addr);
      OnePage(mmu.pfa.Maps(), TableSlots(m, mmu.dir), page);
      SlotsAre(m, mmu.dir, slot);
      assert mmu.Present(m, slot) <==> slot in TableSlots(m, mmu.dir);
      ghost var nf;
      r, nf := mmu.MapPage(addr, addr, Word(0, RW_KERNEL_NOCACHE));
      if r == Mapped {
        MapsStep(m, mmu.Contents(), mmu.dir, mmu.pfa.managed, mapped + stray, page);
        ElsewhereStep(m, mmu.Contents(), mmu.dir, mmu.pfa.managed, boot, page);
      }
    }

    /** A page of a group that holds no page table was not mapped at the boot. */
    lemma NotStray(page: int, h: int)
      requires Core() && TakenBy(mmu.pfa.live, page, h) && h !in mmu.owned
      ensures page !in stray
    {
      hide Inv;
      hide MapsExactly;
      hide Elsewhere;
      hide Uniform;
      hide Sound;
      hide Allocator.Valid;
      hide Objects;
      forall p | p in stray ensures p != page { OwnedApart(p, h); }
    }

    lemma OwnedApart(p: int, h: int)
      requires mmu.Valid() && p in mmu.owned && h in mmu.pfa.live && h !in mmu.owned
      ensures !(h <= p < h + mmu.pfa.live[h])
    {
      hide Sound;
      hide Allocator.Valid;
      if p < h {
        mmu.pfa.LiveDisjoint(p, h);
      } else if h < p {
        mmu.pfa.LiveDisjoint(h, p);
      }
    }

    /** No object of the blocks belongs to the frame allocator. */
    lemma Footprint()
      requires Objects() && Separate()
      ensures forall b :: b in blocks ==>
        b in Repr && b.chunkmap in Repr && b !in mmu.pfa.Repr && b.chunkmap !in mmu.pfa.Repr
    {
    }

    lemma ValidShape()
      requires Valid()
      ensures mmu.Shape()
    {
    }

    lemma ValidMapped()
      requires Valid()
      ensures Core() && MappedPages(Views(), bigs, mapped) && Objects() && Separate() && mmu.Shape()
    {
    }

    lemma CoreShape()
      requires Core()
      ensures mmu.Shape()
    {
    }

    /** Identity maps one page of group h.  Of the failures of map_page only the
        lack of a frame for a page table can occur: the panic for an existing
        mapping is unreachable. */
    method IdentityMap(addr: nat, ghost h: int) returns (r: MapResult)
      requires Core() && addr < TABLE_WINDOW && Aligned(addr)
      requires PageOf(addr) in mmu.pfa.managed && PageOf(addr) !in mapped
      requires TakenBy(mmu.pfa.live, PageOf(addr), h) && h !in mmu.owned
      modifies this`mapped, mmu`owned, mmu.ram, mmu.pfa.Repr
      ensures r == if CanMap(old(Now()), {PageOf(addr)}) then Mapped else OutOfMemory
      ensures r == Mapped ==> Core() && mapped == old(mapped) + {PageOf(addr)} && Views() == old(Views())
      ensures r == Mapped ==> Now() == MapPages(old(Now()), {PageOf(addr)})
      ensures r == Mapped ==> Grew(old(mmu.pfa.live), old(mmu.owned), mmu.pfa.live, mmu.owned)
    {
      hide Objects;
      hide Views;
      hide Inv;
      hide MapsExactly;
      hide Elsewhere;
      hide Uniform;
      hide Mmu.Valid;
      hide Block.Valid;
      hide Grew;
      hide CanMap;
      hide MapPages;
      hide Mmu.Slots;
      Footprint();
      ghost var s, page := S(), PageOf(addr);
      NotStray(page, h);
      r := MapToItself(addr);
      if r == Mapped {
        assert mapped + stray + {page} == mapped + {page} + stray;
        mapped := mapped + {page};
        MmuGroups(mmu);
        GrewKeepsInv(s, mmu.pfa.live, mmu.owned);
        GrewOwned(s.groups, s.owned, mmu.pfa.live, mmu.owned);
        assert S() == s.(groups := mmu.pfa.live, owned := mmu.owned);
      }
    }

    /** Takes a fresh page group from the frame allocator; the heap does not use it yet. */
    method AllocPages(nbPages: nat) returns (phys: nat, ghost r: nat, ghost i: nat)
      requires Valid()
      modifies mmu.pfa.Repr
      ensures Views() == old(Views())
      ensures forall b :: b in blocks ==> unchanged(b) && unchanged(b.chunkmap)
      ensures phys == BAD_PAGE ==>
        mmu.pfa.live == old(mmu.pfa.live) && mmu.pfa.Maps() == old(mmu.pfa.Maps()) && Now() == old(Now())
      ensures phys == BAD_PAGE <==> nbPages == 0 || NoFreeRun(old(mmu.pfa.Maps()), nbPages)
      ensures phys != BAD_PAGE ==>
        && Aligned(phys) && PageOf(phys) !in old(mmu.pfa.live) && nbPages >= 1
        && phys + nbPages * PAGE_SIZE <= TABLE_WINDOW
        && mmu.pfa.live == old(mmu.pfa.live)[PageOf(phys) := nbPages]
        && Unused(S(), PageOf(phys)) && PageOf(phys) !in mmu.owned
        && (forall k :: PageOf(phys) <= k < PageOf(phys) + nbPages ==> k in mmu.pfa.managed && k !in mapped)
      ensures phys != BAD_PAGE ==>
        && Taken(old(mmu.pfa.Maps()), mmu.pfa.Maps(), r, i, nbPages)
        && r < |mmu.pfa.regions| && i < mmu.pfa.regions[r].nbPages && phys == mmu.pfa.regions[r].Frame(i)
        && Now() == TakeRun(old(Now()), nbPages) && PageOf(phys) == PageAt(old(Now()), nbPages)
      ensures Valid()
    {
      hide Objects;
      hide Views;
      hide Inv;
      hide MapsExactly;
      hide Elsewhere;
      hide Uniform;
      hide Sound;
      hide Allocator.Valid;
      hide Block.Valid;
      hide MappedPages;
      hide Mark;
      hide NoRun;
      hide IsFirstFit;
      hide FreeRun;
      hide WellFormed;
      hide Unused;
      Footprint();
      ghost var s, maps := S(), mmu.pfa.Maps();
      phys, r, i := mmu.pfa.Alloc(nbPages);
      if phys == BAD_PAGE {
        return;
      }
      ghost var h := PageOf(phys);
      MmuGroups(mmu);
      GrewKeepsInv(s, mmu.pfa.live, mmu.owned);
      assert S() == s.(groups := mmu.pfa.live);
      InvLayout(s);
      NewGroupUnused(s, h);
      SameUnused(s, S(), h);
      mmu.pfa.LiveManaged(h);
      assert InRam(h + nbPages - 1);
      UnusedNotMapped(phys);
      FirstFitIsRun(maps[r], nbPages, i);
      FirstIs(maps, r, i, nbPages);
      mmu.pfa.FramePage(r, i);
    }

    /** list_add of a block whose page is mapped and not used by the heap yet. */
    method LinkBlock(b: Block)
      requires Core() && MappedPages(Views(), bigs, mapped - {PageOf(b.addr)})
      requires b.Valid() && b.used == {} && b !in Repr && b.chunkmap !in Repr
      requires b !in mmu.pfa.Repr && b.chunkmap !in mmu.pfa.Repr && PageOf(b.addr) in mapped
      requires PageOf(b.addr) in mmu.pfa.live && mmu.pfa.live[PageOf(b.addr)] == 1
      requires PageOf(b.addr) !in mmu.owned && Unused(S(), PageOf(b.addr))
      modifies this`blocks, this`Repr
      ensures Valid()
      ensures blocks == [b] + old(blocks) && Repr == old(Repr) + {b, b.chunkmap}
      ensures |Views()| > 0 && Views()[0].page == PageOf(b.addr) && Views()[1..] == old(Views())
      ensures Now() == old(Now()).(blocks := [BlockView(PageOf(b.addr), b.firstPtr, b.eltSize, {})] + old(Views()))
    {
      hide Inv;
      hide MapsExactly;
      hide Elsewhere;
      hide Uniform;
      hide Mmu.Valid;
      hide Block.Valid;
      hide MappedPages;
      ghost var s, v := S(), BlockView(PageOf(b.addr), b.firstPtr, b.eltSize, b.used);
      BlockViewOk(b, s);
      AddBlockStep(s, v);
      InUseAddBlock(s, v, mapped - {v.page});
      blocks := [b] + blocks;
      Repr := Repr + {b, b.chunkmap};
      assert Views() == [v] + s.blocks;
      assert mapped == mapped - {v.page} + {v.page};
    }

    lemma BlockViewOk(b: Block, s: State)
      requires b.Valid()
      requires PageOf(b.addr) in s.groups && s.groups[PageOf(b.addr)] == 1 && PageOf(b.addr) !in s.owned
      ensures BlockOk(s, BlockView(PageOf(b.addr), b.firstPtr, b.eltSize, b.used))
    {
      b.HeaderInPage();
      forall p | p in b.used { b.UsedInPage(p); }
      forall p, q | p in b.used && q in b.used && p < q { b.UsedApart(p, q); }
    }

    /** A page for a block: allocated and identity mapped, not yet in the list. */
    method NewPage() returns (r: Result)
      requires Valid()
      modifies this`mapped, mmu`owned, mmu.ram, mmu.pfa.Repr
      ensures r == Null <==> NoFreeRun(old(mmu.pfa.Maps()), 1)
      ensures r == Halt <==> !NoFreeRun(old(mmu.pfa.Maps()), 1) && !CanGrow(old(Now()))
      ensures r == Null ==> Valid() && unchanged(this) && unchanged(mmu) && unchanged(mmu.ram)
      ensures r == Null ==> mmu.pfa.live == old(mmu.pfa.live) && mmu.pfa.Maps() == old(mmu.pfa.Maps())
      ensures r.Ptr? ==>
        && Core() && Views() == old(Views())
        && Aligned(r.addr) && r.addr > 0 && mapped == old(mapped) + {PageOf(r.addr)}
        && PageOf(r.addr) !in old(mapped) && PageOf(r.addr) !in old(mmu.pfa.live)
        && PageOf(r.addr) in mmu.pfa.live && mmu.pfa.live[PageOf(r.addr)] == 1
        && PageOf(r.addr) !in mmu.owned && Unused(S(), PageOf(r.addr))
        && Grew(old(mmu.pfa.live), old(mmu.owned), mmu.pfa.live, mmu.owned)
        && PageOf(r.addr) == PageAt(old(Now()), 1) && Now() == MapPages(TakeRun(old(Now()), 1), {PageOf(r.addr)})
    {
      hide Inv;
      hide MapsExactly;
      hide Elsewhere;
      hide Uniform;
      hide Mmu.Valid;
      hide MappedPages;
      hide NoFreeRun;
      hide Block.Valid;
      hide CanMap;
      hide MapPages;
      hide TakeRun;
      hide PageAt;
      ghost var r0, i0;
      var phys;
      phys, r0, i0 := AllocPages(1);
      if phys == 0 {
        return Null;
      }
      var m := IdentityMap(phys, PageOf(phys));
      return if m == Mapped then Ptr(phys) else Halt;
    }

    /** new_block: NULL leaves everything alone. */
    method NewBlock(eltSize: nat) returns (r: Result)
      requires Valid() && 8 <= eltSize <= 2048
      modifies this`blocks, this`Repr, this`mapped, mmu`owned, mmu.ram, mmu.pfa.Repr
      ensures r == Null <==> NoFreeRun(old(mmu.pfa.Maps()), 1)
      ensures r == Halt <==> !NoFreeRun(old(mmu.pfa.Maps()), 1) && !CanGrow(old(Now()))
      ensures r == Null ==> Valid() && unchanged(this) && unchanged(mmu) && unchanged(mmu.ram)
      ensures r == Null ==> mmu.pfa.live == old(mmu.pfa.live) && mmu.pfa.Maps() == old(mmu.pfa.Maps())
      ensures r.Ptr? ==>
        && Valid() && fresh(Repr - old(Repr)) && old(Repr) <= Repr
        && |blocks| == |old(blocks)| + 1 && blocks[1..] == old(blocks) && fresh(blocks[0])
        && blocks[0].eltSize == eltSize && blocks[0].nbFrees > 0
        && WellCut(blocks[0].addr, eltSize, blocks[0].totElts, blocks[0].firstPtr)
        && blocks[0].nbFrees == blocks[0].totElts
        && Grew(old(mmu.pfa.live), old(mmu.owned), mmu.pfa.live, mmu.owned)
        && KeepsUnused(old(S()), S())
        && Now() == NewBlockAt(old(Now()), eltSize)
    {
      hide Core;
      hide Valid;
      hide MappedPages;
      hide NoFreeRun;
      hide Grew;
      hide Unused;
      hide KeepsUnused;
      hide MapPages;
      hide CanMap;
      hide TakeRun;
      hide PageAt;
      hide NewBlockAt;
      hide NbElts;
      hide FirstChunk;
      hide WellCut;
      hide Views;
      ValidMapped();
      NowParts();
      hide Now;
      ghost var m := Now();
      if NbElts(eltSize) == 0 {
        AtLeastOne(eltSize);
        assert false;
      }
      r := NewPage();
      if r.Ptr? {
        ghost var views, n := Views(), Now();
        var b := new Block(r.addr, eltSize);
        assert Views() == views && Now() == n;
        assert mapped - {PageOf(r.addr)} == old(mapped);
        assert MappedPages(Views(), bigs, old(mapped));
        LinkBlock(b);
        NewBlockKeepsUnused(old(S()), S());
        NewBlockIs(m, n, Now(), eltSize, BlockView(PageOf(b.addr), b.firstPtr, b.eltSize, {}));
      }
    }

    lemma NewBlockIs(m: Moment, n: Moment, o: Moment, eltSize: nat, v: BlockView)
      requires m.Shaped() && CanGrow(m) && n == MapPages(TakeRun(m, 1), {PageAt(m, 1)})
      requires v == EmptyBlock(PageAt(m, 1), eltSize) && o == n.(blocks := [v] + m.blocks)
      ensures o == NewBlockAt(m, eltSize)
    {
      hide MapPages;
      hide TakeRun;
      hide PageAt;
    }

    /** A block has room exactly when its count of free chunks says so. */
    lemma RoomOf(i: nat)
      requires Objects() && i < |blocks|
      ensures HasRoom(Views()[i]) <==> blocks[i].nbFrees > 0
    {
      blocks[i].FreeChunks();
      var b := Views()[i];
      assert forall c :: IsFree(b, c) <==> 0 <= c < blocks[i].totElts && blocks[i].Chunk(c) !in blocks[i].used;
    }

    /** find_non_full_block: the first block of that size with a free chunk, if any. */
    method FindNonFullBlock(size: nat) returns (i: nat)
      requires Objects()
      ensures i <= |blocks|
      ensures i < |blocks| ==> blocks[i].eltSize == size && blocks[i].nbFrees > 0
      ensures i < |blocks| ==> FirstRoom(Views(), size, i)
      ensures i == |blocks| <==> NoFreeChunk(Views(), size)
    {
      hide HasRoom;
      hide Block.Valid;
      for k := 0 to |blocks|
        invariant NoFreeChunk(Views()[..k], size)
      {
        RoomOf(k);
        if blocks[k].eltSize == size && blocks[k].nbFrees > 0 {
          assert Views()[k].eltSize == size;
          return k;
        }
        assert Views()[..k + 1] == Views()[..k] + [Views()[k]];
      }
      assert Views()[..|blocks|] == Views();
      return |blocks|;
    }

    lemma BlockIs(i: nat)
      requires Objects() && i < |blocks|
      ensures blocks[i].Valid() && |Views()| == |blocks|
      ensures Views()[i] == BlockView(PageOf(blocks[i].addr), blocks[i].firstPtr, blocks[i].eltSize, blocks[i].used)
    {
    }

    /** The lowest free chunk of block i is used from now on. */
    method TakeChunkOf(i: nat) returns (ptr: nat)
      requires Objects() && i < |blocks| && blocks[i].nbFrees > 0
      modifies blocks[i], blocks[i].chunkmap
      ensures Objects() && ptr !in old(Views())[i].used && LowestChunk(old(Views())[i], ptr)
      ensures Views() == old(Views())[i := old(Views())[i].(used := old(Views())[i].used + {ptr})]
    {
      hide Block.Valid;
      hide LowestChunk;
      ghost var views, b := Views(), blocks[i];
      ptr := blocks[i].Take();
      LowestOf(views[i], b, ptr);
      assert Views() == views[i := views[i].(used := views[i].used + {ptr})];
    }

    /** Takes a chunk of block i for a request of size bytes. */
    method TakeFrom(i: nat, ghost size: nat) returns (ptr: nat)
      requires Valid() && i < |blocks| && blocks[i].nbFrees > 0 && size <= blocks[i].eltSize
      modifies this`live, blocks[i], blocks[i].chunkmap
      ensures Valid()
      ensures ptr > 0 && ptr !in old(live) && live == old(live)[ptr := size]
      ensures IsChunk(S(), i, ptr) && S().blocks[i].eltSize == blocks[i].eltSize
      ensures forall h :: Unused(S(), h) <==> Unused(old(S()), h)
      ensures LowestChunk(old(Views())[i], ptr)
      ensures var b := old(Views())[i];
        Now() == old(Now()).(blocks := old(Views())[i := b.(used := b.used + {ptr})], live := old(live)[ptr := size])
    {
      hide Inv;
      hide MapsExactly;
      hide Elsewhere;
      hide Uniform;
      hide Mmu.Valid;
      hide MappedPages;
      hide BlockOk;
      hide Block.Valid;
      hide Objects;
      hide Views;
      hide LowestChunk;
      hide Mmu.Slots;
      ghost var s := S();
      Footprint();
      BlockIs(i);
      ptr := TakeChunkOf(i);
      BlockIs(i);
      blocks[i].UsedInPage(ptr);
      InvLayout(s);
      BlockViewAfter(blocks[i], s, i);
      TakeChunkStep(s, i, ptr, size);
      InUseUpdate(s, i, blocks[i].used, mapped);
      TakeKeepsUnused(s, i, blocks[i].used, live[ptr := size]);
      live := live[ptr := size];
    }

    lemma LowestOf(v: BlockView, b: Block, ptr: int)
      requires b.Shape() && v.first == b.firstPtr && v.eltSize == b.eltSize && ptr !in v.used
      requires exists c :: 0 <= c < b.totElts && ptr == b.Chunk(c) && forall d :: 0 <= d < c ==> b.Chunk(d) in v.used
      ensures LowestChunk(v, ptr)
    {
      var c :| 0 <= c < b.totElts && ptr == b.Chunk(c) && forall d :: 0 <= d < c ==> b.Chunk(d) in v.used;
      forall d | d < c
        ensures !IsFree(v, d)
      {
        assert d >= 0 ==> b.Chunk(d) in v.used;
      }
      assert IsFree(v, c);
      assert LowestAt(v, ptr, c);
    }

    lemma BlockViewAfter(b: Block, s: State, i: nat)
      requires b.Valid() && Layout(s) && i < |s.blocks|
      requires s.blocks[i].page == PageOf(b.addr) && s.blocks[i].first == b.firstPtr && s.blocks[i].eltSize == b.eltSize
      ensures BlockOk(s, s.blocks[i].(used := b.used))
    {
      assert BlockOk(s, s.blocks[i]);
      BlockViewOk(b, s);
    }

    /** The first block with room, or a new block. */
    method BlockWithRoom(eltSize: nat) returns (r: Result, i: nat)
      requires Valid() && 8 <= eltSize <= 2048
      modifies this`blocks, this`Repr, this`mapped, mmu`owned, mmu.ram, mmu.pfa.Repr
      ensures r == Null <==> NoFreeChunk(old(Views()), eltSize) && NoFreeRun(old(mmu.pfa.Maps()), 1)
      ensures r == Halt <==>
        NoFreeChunk(old(Views()), eltSize) && !NoFreeRun(old(mmu.pfa.Maps()), 1) && !CanGrow(old(Now()))
      ensures r == Null ==> Valid() && unchanged(this) && unchanged(mmu) && unchanged(mmu.ram)
      ensures r == Null ==> S() == old(S()) && Now() == old(Now())
      ensures r.Ptr? ==>
        && Valid() && fresh(Repr - old(Repr)) && old(Repr) <= Repr
        && i < |blocks| && blocks[i].eltSize == eltSize && blocks[i].nbFrees > 0
        && Grew(old(mmu.pfa.live), old(mmu.owned), mmu.pfa.live, mmu.owned)
        && KeepsUnused(old(S()), S())
        && FirstRoom(Views(), eltSize, i)
        && Now() == if NoFreeChunk(old(Views()), eltSize) then NewBlockAt(old(Now()), eltSize) else old(Now())
    {
      hide Core;
      hide Valid;
      hide Unused;
      hide Block.Valid;
      hide MappedPages;
      hide NoFreeRun;
      hide HasRoom;
      hide CanGrow;
      hide NewBlockAt;
      hide Mmu.Slots;
      ghost var s := S();
      ValidMapped();
      Footprint();
      i := FindNonFullBlock(eltSize);
      if i < |blocks| {
        return Ptr(blocks[i].addr), i;
      }
      hide NoFreeChunk;
      r := NewBlock(eltSize);
      i := 0;
      if r.Ptr? {
        ValidMapped();
        RoomOf(0);
        NoBlocks(Views(), eltSize);
      } else {
        assert r == Null ==> Views() == s.blocks;
      }
    }

    lemma NoBlocks(views: seq<BlockView>, eltSize: nat)
      ensures NoFreeChunk(views[..0], eltSize)
    {
    }

    /** A chunk for a request whose rounded size is below a page: from the first
        block with room, or from a new block. */
    method AllocChunk(eltSize: nat, ghost size: nat) returns (r: Result)
      requires Valid() && 8 <= eltSize <= 2048 && size <= eltSize
      modifies this, Repr, mmu`owned, mmu.ram, mmu.pfa.Repr
      ensures ChunkStep(old(Now()), eltSize, size, r, Now())
      ensures r == Null ==> Valid() && unchanged(this) && unchanged(mmu) && unchanged(mmu.ram)
      ensures r == Null ==> forall b :: b in blocks ==> unchanged(b) && unchanged(b.chunkmap)
      ensures r == Null ==> S() == old(S()) && Now() == old(Now())
      ensures r.Ptr? ==>
        && Valid() && fresh(Repr - old(Repr))
        && r.addr > 0 && r.addr !in old(live) && live == old(live)[r.addr := size]
        && bigs == old(bigs)
        && (exists i :: IsChunk(S(), i, r.addr) && S().blocks[i].eltSize == eltSize)
        && Grew(old(mmu.pfa.live), old(mmu.owned), mmu.pfa.live, mmu.owned)
        && KeepsUnused(old(S()), S())
    {
      hide Core;
      hide Valid;
      hide Unused;
      hide Block.Valid;
      hide MappedPages;
      hide NoFreeRun;
      hide NoFreeChunk;
      hide FirstRoom;
      hide LowestChunk;
      hide CanGrow;
      hide NewBlockAt;
      hide Mmu.Slots;
      var i;
      ValidMapped();
      Footprint();
      r, i := BlockWithRoom(eltSize);
      if r.Ptr? {
        ValidMapped();
        ghost var m := Now();
        var ptr := TakeFrom(i, size);
        r := Ptr(ptr);
        assert ChunkTakenAt(m, eltSize, size, ptr, Now(), i);
      }
    }

    /** Identity maps nbPages pages from head, with no lazy loading. */
    method IdentityMapAll(head: nat, nbPages: nat) returns (ok: bool)
      requires Core() && Aligned(head) && head + nbPages * PAGE_SIZE <= TABLE_WINDOW
      requires forall k :: PageOf(head) <= k < PageOf(head) + nbPages ==> k in mmu.pfa.managed && k !in mapped
      requires PageOf(head) in mmu.pfa.live && mmu.pfa.live[PageOf(head)] == nbPages && PageOf(head) !in mmu.owned
      modifies this`mapped, mmu`owned, mmu.ram, mmu.pfa.Repr
      ensures ok <==> CanMap(old(Now()), PageRange(PageOf(head), nbPages))
      ensures ok ==> Core() && mapped == old(mapped) + PageRange(PageOf(head), nbPages) && Views() == old(Views())
      ensures ok ==> Now() == MapPages(old(Now()), PageRange(PageOf(head), nbPages))
      ensures ok ==> Grew(old(mmu.pfa.live), old(mmu.owned), mmu.pfa.live, mmu.owned)
    {
      hide Core;
      hide Views;
      hide Now;
      hide Grew;
      hide PageRange;
      hide CanMap;
      hide MapPages;
      CoreShape();
      ghost var m, h, groups, owned := Now(), PageOf(head), mmu.pfa.live, mmu.owned;
      NothingMapped(m);
      NothingGrew(groups, owned);
      assert PageRange(h, 0) == {};
      for i := 0 to nbPages
        invariant Core() && mapped == old(mapped) + PageRange(h, i) && Views() == old(Views())
        invariant CanMap(m, PageRange(h, i)) && Now() == MapPages(m, PageRange(h, i))
        invariant Grew(groups, owned, mmu.pfa.live, mmu.owned)
      {
        var addr := head + i * PAGE_SIZE;
        PageAddress(head, i);
        OneMoreMapped(m, PageRange(h, i), PageOf(addr));
        NextPage(h, i);
        NextMapped(old(mapped), h, i);
        ghost var live, frames := mmu.pfa.live, mmu.owned;
        GrewGroup(groups, owned, live, frames, h);
        var r := IdentityMap(addr, h);
        if r != Mapped {
          FewerMapped(m, PageRange(h, i + 1), PageRange(h, nbPages));
          return false;
        }
        GrewTwice(groups, owned, live, frames, mmu.pfa.live, mmu.owned);
      }
      return true;
    }

    lemma PageAddress(head: nat, i: nat)
      requires Aligned(head)
      ensures Aligned(head + i * PAGE_SIZE) && PageOf(head + i * PAGE_SIZE) == PageOf(head) + i
    {
    }

    lemma NextMapped(pages: set<int>, h: int, i: nat)
      requires h + i !in pages
      ensures h + i !in pages + PageRange(h, i)
      ensures pages + PageRange(h, i) + {h + i} == pages + PageRange(h, i + 1)
    {
    }

    lemma NextPage(h: int, i: nat)
      ensures PageRange(h, i + 1) == PageRange(h, i) + {h + i}
    {
    }

    /** Gives a page group back to the frame allocator. */
    method FreePages(head: nat)
      requires Core() && head < TABLE_WINDOW && Aligned(head) && PageOf(head) in mmu.pfa.live
      requires Unused(S(), PageOf(head)) && PageOf(head) !in mmu.owned
      modifies mmu.pfa.Repr
      ensures Core() && mmu.pfa.live == old(mmu.pfa.live) - {PageOf(head)} && Views() == old(Views())
      ensures forall b :: b in blocks ==> unchanged(b) && unchanged(b.chunkmap)
      ensures Now() == old(Now()).(maps := mmu.pfa.Maps())
      ensures forall r, i | 0 <= r < |mmu.pfa.regions| && 0 <= i < mmu.pfa.regions[r].nbPages ::
        mmu.pfa.regions[r].Frame(i) == head ==> GivenBack(old(mmu.pfa.Maps()), mmu.pfa.Maps(), r, i)
    {
      hide Objects;
      hide Views;
      hide Inv;
      hide MapsExactly;
      hide Elsewhere;
      hide Uniform;
      hide Sound;
      hide Allocator.Valid;
      hide Block.Valid;
      Footprint();
      ghost var s := S();
      var panicked := mmu.pfa.Free(head);
      assert !panicked;
      MmuGroups(mmu);
      GroupsStep(s, mmu.pfa.live, mmu.owned);
      assert S() == s.(groups := mmu.pfa.live);
    }

    /** The pages of a group that the heap does not use yet are not mapped. */
    lemma UnusedNotMapped(head: nat)
      requires Valid() && Aligned(head) && PageOf(head) in mmu.pfa.live && Unused(S(), PageOf(head))
      ensures forall k :: PageOf(head) <= k < PageOf(head) + mmu.pfa.live[PageOf(head)] ==>
        k in mmu.pfa.managed && k !in mapped
    {
      hide Inv;
      hide MapsExactly;
      hide Elsewhere;
      hide Uniform;
      hide Sound;
      hide Objects;
      hide Unused;
      mmu.pfa.LiveManaged(PageOf(head));
      forall k | PageOf(head) <= k < PageOf(head) + mmu.pfa.live[PageOf(head)]
        ensures k !in mapped
      {
        UnusedNotInUse(S(), PageOf(head), k);
        MappedAt(S(), mapped, k);
      }
    }

    /** list_add of the metadata of a big allocation whose pages are still to be mapped. */
    method LinkBig(g: Big, ghost asked: nat)
      requires Valid() && BigOk(S(), g) && Unused(S(), PageOf(g.ptr)) && asked <= g.size
      requires g.meta in live && exists i :: IsChunk(S(), i, g.meta) && S().blocks[i].eltSize == META_SIZE
      modifies this`bigs, this`live
      ensures Core() && bigs == [g] + old(bigs)
      ensures g.ptr !in old(live) && live == (old(live) - {g.meta})[g.ptr := asked]
      ensures MappedPages(Views(), bigs, mapped + PageRange(PageOf(g.ptr), PageOf(g.size)))
      ensures Now() == old(Now()).(bigs := bigs, live := live)
    {
      hide Objects;
      hide Views;
      hide Inv;
      hide MapsExactly;
      hide Elsewhere;
      hide Uniform;
      hide Mmu.Valid;
      hide Block.Valid;
      hide Unused;
      hide MappedPages;
      hide BigOk;
      ghost var s := S();
      ghost var i :| IsChunk(s, i, g.meta) && s.blocks[i].eltSize == META_SIZE;
      AddBigStep(s, g, asked, i);
      InUseAddBig(s, g, mapped);
      PagesOfRange(g);
      bigs := [g] + bigs;
      live := (live - {g.meta})[g.ptr := asked];
      assert S() == AddBig(s, g, asked);
    }

    lemma PagesOfRange(g: Big)
      ensures PagesOf(g) == PageRange(PageOf(g.ptr), PageOf(g.size))
    {
    }

    /** Gives back the frames of a big allocation that found no memory for its metadata. */
    method RollBack(head: nat, nbPages: nat, ghost m: Moment, ghost r: nat, ghost i: nat)
      requires Valid() && head < TABLE_WINDOW && Aligned(head) && PageOf(head) in mmu.pfa.live
      requires Unused(S(), PageOf(head)) && PageOf(head) !in mmu.owned && nbPages >= 1
      requires Taken(m.maps, mmu.pfa.Maps(), r, i, nbPages) && Now().(maps := m.maps) == m
      requires r < |mmu.pfa.regions| && i < mmu.pfa.regions[r].nbPages && head == mmu.pfa.regions[r].Frame(i)
      modifies mmu.pfa.Repr
      ensures Valid() && mmu.pfa.live == old(mmu.pfa.live) - {PageOf(head)} && Now() == m
      ensures Views() == old(Views())
      ensures forall b :: b in blocks ==> unchanged(b) && unchanged(b.chunkmap)
    {
      hide Views;
      hide Inv;
      hide MapsExactly;
      hide Elsewhere;
      hide Uniform;
      hide Mmu.Valid;
      hide Objects;
      hide Unused;
      hide MappedPages;
      hide Taken;
      hide GivenBack;
      hide Mmu.Slots;
      ghost var mid := mmu.pfa.Maps();
      FreePages(head);
      GivenBackAgain(m.maps, mid, mmu.pfa.Maps(), r, i, nbPages);
    }

    /** Fills and links the metadata and maps the pages. */
    method HandOut(size: nat, head: nat, meta: nat, ghost asked: nat) returns (r: Result)
      requires Valid() && Aligned(size) && size > 0 && asked <= size
      requires Aligned(head) && head + size <= TABLE_WINDOW && 0 < head
      requires PageOf(head) in mmu.pfa.live && mmu.pfa.live[PageOf(head)] == PageOf(size)
      requires PageOf(head) !in mmu.owned && Unused(S(), PageOf(head))
      requires meta in live && exists i :: IsChunk(S(), i, meta) && S().blocks[i].eltSize == META_SIZE
      modifies this`bigs, this`live, this`mapped, mmu`owned, mmu.ram, mmu.pfa.Repr
      ensures r == if CanMap(old(Now()), PageRange(PageOf(head), size / PAGE_SIZE)) then Ptr(head) else Halt
      ensures r.Ptr? ==> Now() == BigAt(old(Now()), size, asked, PageOf(head), meta)
      ensures r.Ptr? ==>
        && Valid() && bigs == [Big(size, head, meta)] + old(bigs)
        && head !in old(live) && live == (old(live) - {meta})[head := asked]
        && Grew(old(mmu.pfa.live), old(mmu.owned), mmu.pfa.live, mmu.owned)
    {
      hide Views;
      hide Inv;
      hide MapsExactly;
      hide Elsewhere;
      hide Uniform;
      hide Mmu.Valid;
      hide Objects;
      hide Unused;
      hide MappedPages;
      hide PageRange;
      hide Mappable;
      hide MapsAfter;
      hide Mmu.Slots;
      UnusedNotMapped(head);
      LinkBig(Big(size, head, meta), asked);
      var ok := IdentityMapAll(head, size / PAGE_SIZE);
      return if ok then Ptr(head) else Halt;
    }

    /** The first half of big_alloc: page frames, and a chunk for the metadata from
        kmalloc itself.  Without memory for the metadata the frames are given back. */
    method FramesAndMeta(nbPages: nat) returns (r: Result, head: nat, ghost mid: Moment)
      requires Valid() && nbPages >= 1
      modifies this, Repr, mmu`owned, mmu.ram, mmu.pfa.Repr
      decreases 1, 0
      ensures NoFreeRun(old(mmu.pfa.Maps()), nbPages) ==> r == Null
      ensures !NoFreeRun(old(mmu.pfa.Maps()), nbPages) ==>
        && ChunkStep(TakeRun(old(Now()), nbPages), META_SIZE, META_SIZE, r, mid)
        && PageOf(head) == PageAt(old(Now()), nbPages)
      ensures r.Ptr? ==> !NoFreeRun(old(mmu.pfa.Maps()), nbPages) && Now() == mid
      ensures r == Null ==> Valid() && unchanged(this) && unchanged(mmu) && unchanged(mmu.ram)
      ensures r == Null ==> forall b :: b in blocks ==> unchanged(b) && unchanged(b.chunkmap)
      ensures r == Null ==> S() == old(S()) && Now() == old(Now())
      ensures r.Ptr? ==>
        && Valid() && fresh(Repr - old(Repr)) && bigs == old(bigs)
        && r.addr !in old(live) && live == old(live)[r.addr := META_SIZE]
        && (exists i :: IsChunk(S(), i, r.addr) && S().blocks[i].eltSize == META_SIZE)
        && Aligned(head) && 0 < head && head + nbPages * PAGE_SIZE <= TABLE_WINDOW
        && PageOf(head) in mmu.pfa.live && mmu.pfa.live[PageOf(head)] == nbPages
        && PageOf(head) !in mmu.owned && Unused(S(), PageOf(head))
        && Grew(old(mmu.pfa.live), old(mmu.owned), mmu.pfa.live, mmu.owned)
    {
      hide Core;
      hide Valid;
      hide Views;
      hide Unused;
      hide MappedPages;
      hide RoundedUp;
      hide Mark;
      hide IsChunk;
      hide NoFreeRun;
      hide NoFreeChunk;
      hide ChunkStep;
      hide FreeRun;
      hide WellFormed;
      hide Mmu.Slots;
      hide Grew;
      hide TakenBy;
      hide Now;
      ValidMapped();
      Footprint();
      NowParts();
      ghost var r0, i0;
      ghost var m, groups := Now(), mmu.pfa.live;
      mid := m;
      head, r0, i0 := AllocPages(nbPages);
      if head == BAD_PAGE {
        return Null, head, mid;
      }
      NowParts();
      ghost var t := S();
      GrewByOne(groups, mmu.owned, PageOf(head), nbPages);
      RoundedMeta();
      MetaSizeIsPower();
      r := Kmalloc(META_SIZE);
      mid := Now();
      if r == Null {
        assert S() == t;
        NowParts();
        RollBack(head, nbPages, m, r0, i0);
      } else if r.Ptr? {
        GrewTwice(groups, t.owned, t.groups, t.owned, mmu.pfa.live, mmu.owned);
        GrewGroup(t.groups, t.owned, mmu.pfa.live, mmu.owned, PageOf(head));
      }
    }

    /** big_alloc: page frames, a chunk for the metadata, and the mappings. */
    method BigAlloc(size: nat, ghost asked: nat) returns (r: Result)
      requires Valid() && Aligned(size) && size > 0 && asked <= size
      modifies this, Repr, mmu`owned, mmu.ram, mmu.pfa.Repr
      decreases 1
      ensures BigStep(old(Now()), size, asked, r, Now())
      ensures r == Null ==> Valid() && unchanged(this) && unchanged(mmu) && unchanged(mmu.ram)
      ensures r == Null ==> forall b :: b in blocks ==> unchanged(b) && unchanged(b.chunkmap)
      ensures r == Null ==> S() == old(S()) && Now() == old(Now())
      ensures r.Ptr? ==>
        && Valid() && fresh(Repr - old(Repr))
        && r.addr > 0 && r.addr !in old(live) && live == old(live)[r.addr := asked]
        && (exists g :: bigs == [g] + old(bigs) && g.ptr == r.addr && g.size == size)
        && Grew(old(mmu.pfa.live), old(mmu.owned), mmu.pfa.live, mmu.owned)
    {
      hide Core;
      hide Valid;
      hide Views;
      hide Unused;
      hide MappedPages;
      hide IsChunk;
      hide NoFreeRun;
      hide ChunkStep;
      hide TakeRun;
      hide BigAt;
      hide CanMap;
      hide Mmu.Slots;
      hide Now;
      ValidMapped();
      Footprint();
      NowParts();
      ghost var m := Now();
      var meta, head;
      ghost var mid;
      meta, head, mid := FramesAndMeta(size / PAGE_SIZE);
      r := meta;
      if meta.Ptr? {
        r := HandOut(size, head, meta.addr, asked);
      }
      if !NoFreeRun(m.maps, size / PAGE_SIZE) {
        assert BigEnd(m, size, asked, PageAt(m, size / PAGE_SIZE), meta, mid, r, Now());
      }
    }

    /** kmalloc, for sizes that do not wrap when rounded up. */
    method Kmalloc(size: nat) returns (r: Result)
      requires Valid() && size <= 0x8000_0000
      modifies this, Repr, mmu`owned, mmu.ram, mmu.pfa.Repr
      decreases if size > 2048 then 2 else 0
      ensures AllocStep(old(Now()), size, r, Now())
      ensures r == Null <==> Exhausted(old(Now()), size)
      ensures r == Halt <==> !Exhausted(old(Now()), size) && Short(old(Now()), size)
      ensures r == Null ==> Valid() && unchanged(this) && unchanged(mmu) && unchanged(mmu.ram)
      ensures r == Null ==> forall b :: b in blocks ==> unchanged(b) && unchanged(b.chunkmap)
      ensures r == Null ==> S() == old(S()) && Now() == old(Now())
      ensures r.Ptr? ==>
        && Valid() && fresh(Repr - old(Repr))
        && r.addr > 0 && r.addr !in old(live) && live == old(live)[r.addr := size]
        && Grew(old(mmu.pfa.live), old(mmu.owned), mmu.pfa.live, mmu.owned)
      ensures r.Ptr? && size <= 2048 ==>
        && bigs == old(bigs) && KeepsUnused(old(S()), S())
        && exists i ::
             IsChunk(S(), i, r.addr)
             && S().blocks[i].eltSize == NextHighestPowerOfTwo(if size < 8 then 8 else size)
      ensures r.Ptr? && size > 2048 ==>
        exists g :: bigs == [g] + old(bigs) && g.ptr == r.addr && g.size == NextHighestPowerOfTwo(size)
    {
      hide ChunkStep;
      hide BigStep;
      hide Exhausted;
      hide Short;
      hide RoundedUp;
      hide NextHighestPowerOfTwo;
      hide Core;
      hide Unused;
      hide KeepsUnused;
      hide Mmu.Slots;
      hide Mmu.Valid;
      CoreShape();
      ghost var m := Now();
      if size == 0 {
        StepReasons(m, size, Null, Now());
        return Null;
      }
      var s := if size < 8 then 8 else size;
      RoundedSize(s);
      RoundedIs(size);
      var rounded := NextHighestPowerOfTwo(s);
      if rounded >= PAGE_SIZE {
        r := BigAlloc(rounded, size);
      } else {
        r := AllocChunk(rounded, size);
      }
      StepReasons(m, size, r, Now());
    }

    /** Unmaps one page of the heap; unmap_page cannot fail on it. */
    method UnmapOne(addr: nat)
      requires Core() && Aligned(addr) && addr < TABLE_WINDOW
      requires PageOf(addr) in mmu.pfa.managed && PageOf(addr) in mapped
      modifies this`mapped, mmu.ram
      ensures Core() && mapped == old(mapped) - {PageOf(addr)} && S() == old(S()) && Now() == old(Now())
    {
      hide Objects;
      hide Views;
      hide Inv;
      hide MapsExactly;
      hide Elsewhere;
      hide Uniform;
      hide Sound;
      hide Allocator.Valid;
      hide Block.Valid;
      hide SameWalks;
      ghost var s, m, page := S(), mmu.Contents(), PageOf(addr);
      MapsAt(m, mmu.dir, mmu.pfa.managed, mapped + stray, page);
      var r := mmu.UnmapPage(addr);
      if r != Unmapped {
        assert false;
      }
      UnmapsStep(m, mmu.Contents(), mmu.dir, mmu.pfa.managed, mapped + stray, page);
      ElsewhereStep(m, mmu.Contents(), mmu.dir, mmu.pfa.managed, boot, page);
      assert mapped + stray - {page} == mapped - {page} + stray;
      UniformKept(m, mmu.Contents(), mmu.dir, RW_KERNEL_NOCACHE);
      SameSlots(m, mmu.Contents(), mmu.dir);
      mapped := mapped - {page};
      assert Views() == s.blocks;
    }

    /** Unmaps the pages of a big allocation. */
    method UnmapAll(head: nat, nbPages: nat)
      requires Core() && Aligned(head) && head + nbPages * PAGE_SIZE <= TABLE_WINDOW
      requires forall k :: PageOf(head) <= k < PageOf(head) + nbPages ==> k in mmu.pfa.managed && k in mapped
      modifies this`mapped, mmu.ram
      ensures Core() && mapped == old(mapped) - PageRange(PageOf(head), nbPages)
      ensures S() == old(S()) && Now() == old(Now())
    {
      hide Views;
      hide Inv;
      hide MapsExactly;
      hide Elsewhere;
      hide Uniform;
      hide Mmu.Valid;
      hide Objects;
      hide PageRange;
      hide Mmu.Slots;
      mmu.HasShape();
      ghost var s := S();
      assert PageRange(PageOf(head), 0) == {};
      for i := 0 to nbPages
        invariant Core() && mapped == old(mapped) - PageRange(PageOf(head), i) && S() == s && Now() == old(Now())
      {
        var addr := head + i * PAGE_SIZE;
        PageAddress(head, i);
        UnmapOne(addr);
        NextPage(PageOf(head), i);
      }
    }

    /** pfa_free of the pages and list_del of the metadata. */
    method ReleaseBig(j: nat)
      requires Core() && j < |bigs| && MappedPages(Views(), Without(bigs, j), mapped)
      modifies this`bigs, this`live, mmu.pfa.Repr
      ensures Valid() && bigs == Without(old(bigs), j)
      ensures live == RemoveBig(old(S()), j).live
      ensures mmu.pfa.live == old(mmu.pfa.live) - {PageOf(old(bigs)[j].ptr)}
      ensures Views() == old(Views())
      ensures PagesGiven(old(Now()), PageOf(old(bigs)[j].ptr), mmu.pfa.Maps())
      ensures Now() == Unlinked(old(Now()), j, mmu.pfa.Maps())
    {
      hide Objects;
      hide Views;
      hide Inv;
      hide MapsExactly;
      hide Elsewhere;
      hide Uniform;
      hide Sound;
      hide Allocator.Valid;
      hide Block.Valid;
      hide MappedPages;
      hide BigOk;
      hide Unused;
      hide GivenBack;
      hide PagesGiven;
      hide Mmu.Slots;
      Footprint();
      ghost var s, g := S(), bigs[j];
      BigPages(s, j);
      RemoveBigStep(s, j);
      mmu.pfa.LiveManaged(PageOf(g.ptr));
      assert InRam(PageOf(g.ptr));
      ghost var m, r, i := Now(), 0, 0;
      r, i := mmu.pfa.SpanOf(PageOf(g.ptr));
      assert FirstSpan(m, PageOf(g.ptr), r);
      var panicked := mmu.pfa.Free(bigs[j].ptr);
      assert !panicked;
      GroupGiven(m, PageOf(g.ptr), mmu.pfa.Maps(), r);
      MmuGroups(mmu);
      bigs := Without(bigs, j);
      live := RemoveBig(s, j).live;
      GroupsStep(RemoveBig(s, j), mmu.pfa.live, mmu.owned);
      assert Views() == s.blocks;
      assert S() == RemoveBig(s, j).(groups := mmu.pfa.live);
    }

    /** big_free: its panics for a failed unmap or a bad page frame are unreachable. */
    method BigFree(j: nat)
      requires Valid() && j < |bigs|
      modifies this, Repr, mmu.ram, mmu.pfa.Repr
      decreases 1
      ensures Valid() && Repr == old(Repr)
      ensures bigs == Without(old(bigs), j) && live == old(live) - {old(bigs)[j].ptr}
      ensures mmu.pfa.live == old(mmu.pfa.live) - {PageOf(old(bigs)[j].ptr)} && mmu.owned == old(mmu.owned)
      ensures BigGiven(old(Now()), j, Now())
    {
      hide Views;
      hide Inv;
      hide MapsExactly;
      hide Elsewhere;
      hide Uniform;
      hide Mmu.Valid;
      hide Objects;
      hide MappedPages;
      hide BigOk;
      hide PageRange;
      hide PagesGiven;
      hide ChunkGiven;
      hide Mmu.Slots;
      mmu.HasShape();
      ghost var s, m := S(), Now();
      var meta := bigs[j];
      BigMapped(j);
      InUseRemoveBig(s, j, mapped);
      PagesOfRange(meta);
      MetaAfterRemove(s, j);
      UnmapAll(meta.ptr, meta.size / PAGE_SIZE);
      ReleaseBig(j);
      assert S().bigs == Without(s.bigs, j);
      assert forall k :: !IsMeta(S(), k, meta.meta) && !IsBig(S(), k, meta.meta);
      ghost var now := mmu.pfa.Maps();
      MetaIsChunk(s, j);
      assert forall i :: IsChunk(S(), i, meta.meta) <==> IsChunk(s, i, meta.meta);
      var panicked := Kfree(meta.meta);
      assert !panicked;
      assert PagesGiven(m, PageOf(meta.ptr), now) && ChunkGiven(Unlinked(m, j, now), meta.meta, Now());
    }

    /** The pages of a big allocation are managed and mapped. */
    lemma BigMapped(j: nat)
      requires Valid() && j < |bigs|
      ensures Aligned(bigs[j].ptr) && bigs[j].ptr + bigs[j].size / PAGE_SIZE * PAGE_SIZE <= TABLE_WINDOW
      ensures forall k :: PageOf(bigs[j].ptr) <= k < PageOf(bigs[j].ptr) + PageOf(bigs[j].size) ==>
        k in mmu.pfa.managed && k in mapped
    {
      hide MapsExactly;
      hide Elsewhere;
      hide Uniform;
      hide Sound;
      hide Allocator.Valid;
      hide Objects;
      hide MappedPages;
      var g := bigs[j];
      BigPages(S(), j);
      mmu.pfa.LiveManaged(PageOf(g.ptr));
      assert InRam(PageOf(g.ptr) + PageOf(g.size) - 1);
      forall k | PageOf(g.ptr) <= k < PageOf(g.ptr) + PageOf(g.size)
        ensures k in mapped
      {
        assert bigs[j].Covers(k);
        MappedAt(S(), mapped, k);
      }
    }

    /** kfree.  It panics for every address that was not handed out or was freed
        already, but not for the metadata of a big allocation: that chunk it
        frees, and the heap is broken from then on. */
    method Kfree(ptr: nat) returns (panicked: bool)
      requires Valid()
      modifies this, Repr, mmu.ram, mmu.pfa.Repr
      decreases if exists j :: IsBig(S(), j, ptr) then 2 else 0
      ensures Repr == old(Repr)
      ensures Valid() <==> forall j :: !IsMeta(old(S()), j, ptr)
      ensures panicked <==> ptr !in old(live) && forall j :: !IsMeta(old(S()), j, ptr)
      ensures live == old(live) - {ptr}
      ensures forall i :: IsChunk(old(S()), i, ptr) ==> S() == GiveChunk(old(S()), i, ptr)
      ensures (forall j :: !IsBig(old(S()), j, ptr)) ==> bigs == old(bigs) && mmu.pfa.live == old(mmu.pfa.live)
      ensures forall j :: IsBig(old(S()), j, ptr) ==>
        bigs == Without(old(bigs), j) && mmu.pfa.live == old(mmu.pfa.live) - {PageOf(ptr)}
      ensures mmu.owned == old(mmu.owned)
      ensures (exists i :: IsChunk(old(S()), i, ptr)) ==> ChunkGiven(old(Now()), ptr, Now())
      ensures ptr in old(live) ==> FreeStep(old(Now()), ptr, Now())
    {
      hide Inv;
      hide MapsExactly;
      hide Elsewhere;
      hide Uniform;
      hide Mmu.Valid;
      hide MappedPages;
      hide Objects;
      hide Views;
      hide BigGiven;
      hide InArea;
      hide Mmu.Slots;
      hide Holder;
      hide ChunkGivenAt;
      hide FreeStep;
      hide Now;
      mmu.HasShape();
      NowParts();
      Footprint();
      ghost var s, m := S(), Now();
      OwnerOf(s, ptr);
      if ptr == 0 {
        NullNotLive(s);
        return true;
      }
      var i := FindHolder(ptr);
      if i < |blocks| {
        panicked := GiveTo(i, ptr);
        if ChunkGivenAt(m, ptr, Now(), i) {
          ChunkFreed(m, ptr, Now(), i);
        }
        return;
      }
      var j := FindBig(ptr);
      if j < |bigs| {
        InvLayout(s);
        BigUnique(s, j);
        BigIsLive(s, j);
        BigFree(j);
        BigFreed(m, ptr, Now(), j);
        return false;
      }
      NotFound(s, ptr);
      return true;
    }

    lemma ChunkFreed(m: Moment, p: int, n: Moment, i: nat)
      requires m.Shaped() && ChunkGivenAt(m, p, n, i)
      ensures ChunkGiven(m, p, n) && FreeStep(m, p, n)
    {
    }

    lemma BigFreed(m: Moment, p: int, n: Moment, j: nat)
      requires m.Shaped() && forall k :: 0 <= k < |m.blocks| ==> !InArea(m.blocks[k], p)
      requires FirstBig(m.bigs, p, j) && BigGiven(m, j, n)
      ensures FreeStep(m, p, n)
    {
      hide BigGiven;
      hide InArea;
    }

    /** The search for the block that holds the address. */
    method FindHolder(ptr: nat) returns (i: nat)
      requires Objects()
      ensures i <= |blocks| == |Views()|
      ensures i < |blocks| ==>
        Holder(Views(), ptr, i) && blocks[i].firstPtr <= ptr < blocks[i].addr + PAGE_SIZE
      ensures i == |blocks| ==> forall k :: 0 <= k < |Views()| ==> !InArea(Views()[k], ptr)
    {
      hide Block.Valid;
      hide InArea;
      for k := 0 to |blocks|
        invariant forall l :: 0 <= l < k ==> !InArea(Views()[l], ptr)
      {
        AreaOf(k, ptr);
        if blocks[k].firstPtr <= ptr < blocks[k].addr + PAGE_SIZE {
          return k;
        }
      }
      return |blocks|;
    }

    /** The search for the big allocation at the address. */
    method FindBig(ptr: nat) returns (j: nat)
      ensures j <= |bigs| && (j < |bigs| ==> FirstBig(bigs, ptr, j))
      ensures j == |bigs| ==> forall k :: 0 <= k < |bigs| ==> bigs[k].ptr != ptr
    {
      for k := 0 to |bigs|
        invariant forall l :: 0 <= l < k ==> bigs[l].ptr != ptr
      {
        if bigs[k].ptr == ptr {
          return k;
        }
      }
      return |bigs|;
    }

    lemma NotFound(s: State, ptr: nat)
      requires Inv(s) && forall k :: 0 <= k < |s.blocks| ==> !InArea(s.blocks[k], ptr)
      requires forall k :: 0 <= k < |s.bigs| ==> s.bigs[k].ptr != ptr
      ensures ptr !in s.live && forall j :: !IsMeta(s, j, ptr)
    {
      hide Inv;
      FoundNowhere(s, ptr);
    }

    lemma AreaOf(i: nat, ptr: int)
      requires Objects() && i < |blocks|
      ensures InArea(Views()[i], ptr) <==> blocks[i].firstPtr <= ptr < blocks[i].addr + PAGE_SIZE
    {
      BlockPage(blocks[i]);
    }

    lemma BlockPage(b: Block)
      requires b.Valid()
      ensures PageOf(b.addr) * PAGE_SIZE == b.addr
    {
    }

    /** The chunk of block i at that address is free again, if it was used. */
    method GiveChunkOf(i: nat, ptr: nat) returns (panicked: bool)
      requires Objects() && i < |blocks|
      modifies blocks[i], blocks[i].chunkmap
      ensures Objects() && (panicked <==> ptr !in old(Views())[i].used)
      ensures Views() == if panicked then old(Views())
                         else old(Views())[i := old(Views())[i].(used := old(Views())[i].used - {ptr})]
    {
      hide Block.Valid;
      ghost var views := Views();
      panicked := blocks[i].Give(ptr);
      assert Views() == if panicked then views else views[i := views[i].(used := views[i].used - {ptr})];
    }

    /** Looks for the chunk of block i; panics for a double free or a foreign address. */
    method GiveTo(i: nat, ptr: nat) returns (panicked: bool)
      requires Valid() && i < |blocks| && blocks[i].firstPtr <= ptr < blocks[i].addr + PAGE_SIZE
      requires Holder(Views(), ptr, i)
      modifies this`live, blocks[i], blocks[i].chunkmap
      ensures Valid() <==> forall j :: !IsMeta(old(S()), j, ptr)
      ensures panicked <==> ptr !in old(live) && forall j :: !IsMeta(old(S()), j, ptr)
      ensures live == old(live) - {ptr}
      ensures forall k :: IsChunk(old(S()), k, ptr) ==> S() == GiveChunk(old(S()), k, ptr)
      ensures forall j :: !IsBig(old(S()), j, ptr)
      ensures ptr in old(live) ==> IsChunk(old(S()), i, ptr)
      ensures forall k :: IsChunk(old(S()), k, ptr) ==> k == i && ChunkGivenAt(old(Now()), ptr, Now(), i)
    {
      hide Inv;
      hide MapsExactly;
      hide Elsewhere;
      hide Uniform;
      hide Mmu.Valid;
      hide MappedPages;
      hide Block.Valid;
      hide Objects;
      hide Views;
      hide Holder;
      ghost var s := S();
      Footprint();
      BlockIs(i);
      BlockPage(blocks[i]);
      FoundInBlock(s, i, ptr);
      panicked := GiveChunkOf(i, ptr);
      if panicked {
        assert forall k :: !IsChunk(s, k, ptr) by { OwnerOf(s, ptr); }
      } else {
        InvLayout(s);
        ChunkBlockIs(s, i, ptr);
        InUseUpdate(s, i, s.blocks[i].used - {ptr}, mapped);
        live := live - {ptr};
        assert S() == GiveChunk(s, i, ptr);
        GiveChunkKeeps(s, i, ptr);
      }
    }
  }

  /** A chunk of a caller can go, a chunk that is metadata cannot. */
  lemma GiveChunkKeeps(s: State, i: nat, p: int)
    requires Inv(s) && IsChunk(s, i, p)
    ensures Inv(GiveChunk(s, i, p)) <==> forall j :: !IsMeta(s, j, p)
  {
    hide Inv;
    InvOwnership(s);
    if j :| IsMeta(s, j, p) {
      FreedMetaBreaks(s, i, j, p);
    } else {
      GiveChunkStep(s, i, p);
    }
  }

  lemma InvOwnership(s: State)
    requires Inv(s)
    ensures Ownership(s)
  {
  }

  /** An address that is neither live nor metadata is no used chunk and no big
      allocation; the pointer of a big allocation is live and no chunk. */
  lemma OwnerOf(s: State, p: int)
    requires Inv(s)
    ensures p !in s.live && (forall j :: !IsMeta(s, j, p)) ==> forall i :: !IsChunk(s, i, p)
    ensures (exists j :: IsBig(s, j, p)) ==> p in s.live && forall j :: !IsMeta(s, j, p)
    ensures (exists j :: IsBig(s, j, p)) ==> forall i :: !IsChunk(s, i, p)
  {
    forall i | IsChunk(s, i, p) ensures forall j :: !IsBig(s, j, p) { ChunkIsNotBig(s, i, p); }
  }

  lemma BigIsLive(s: State, j: nat)
    requires Inv(s) && j < |s.bigs|
    ensures s.bigs[j].ptr in s.live
  {
    assert IsBig(s, j, s.bigs[j].ptr);
  }

  lemma BigPages(s: State, j: nat)
    requires Inv(s) && j < |s.bigs|
    ensures BigOk(s, s.bigs[j])
    ensures var g := s.bigs[j];
      && Aligned(g.ptr) && Aligned(g.size) && g.size > 0
      && PageOf(g.ptr) in s.groups && s.groups[PageOf(g.ptr)] == PageOf(g.size) && PageOf(g.ptr) !in s.owned
  {
  }

  lemma MetaIsChunk(s: State, j: nat)
    requires Inv(s) && j < |s.bigs|
    ensures exists i :: IsChunk(s, i, s.bigs[j].meta)
  {
    assert IsMeta(s, j, s.bigs[j].meta);
  }

  /** The group at a page goes back to the first region with that page. */
  lemma GroupGiven(m: Moment, page: nat, now: seq<Pages>, r: nat)
    requires m.Shaped() && FirstSpan(m, page, r) && GivenBack(m.maps, now, r, page - m.firsts[r])
    ensures PagesGiven(m, page, now)
  {
    assert PagesGivenAt(m, page, now, r);
  }

  lemma NothingMapped(m: Moment)
    ensures CanMap(m, {}) && MapPages(m, {}) == m
  {
    NothingToMap(m.maps, m.tables);
  }

  lemma OneMoreMapped(m: Moment, pages: set<int>, p: int)
    requires CanMap(m, pages)
    ensures CanMap(MapPages(m, pages), {p}) <==> CanMap(m, pages + {p})
    ensures CanMap(m, pages + {p}) ==> MapPages(MapPages(m, pages), {p}) == MapPages(m, pages + {p})
  {
    hide SlotsOf;
    hide Mappable;
    hide MapsAfter;
    MorePages(m.maps, m.tables, pages, {p});
  }

  lemma FewerMapped(m: Moment, some: set<int>, pages: set<int>)
    requires some <= pages && !CanMap(m, some)
    ensures !CanMap(m, pages)
  {
    if CanMap(m, pages) {
      FewerPages(m.maps, m.tables, some, pages);
    }
  }

  lemma RoundedMeta()
    ensures RoundedUp(META_SIZE) == META_SIZE
  {
    MetaSizeIsPower();
    hide NextHighestPowerOfTwo;
  }

  lemma RoundedIs(size: nat)
    requires size <= 0x8000_0000
    ensures RoundedUp(size) == NextHighestPowerOfTwo(if size < 8 then 8 else size)
  {
    hide NextHighestPowerOfTwo;
  }

  lemma RoundedSize(size: nat)
    requires 8 <= size <= 0x8000_0000
    ensures var r := NextHighestPowerOfTwo(size);
      size <= r && if size <= 2048 then 8 <= r <= 2048 else r >= PAGE_SIZE && Aligned(r)
  {
    var h := RoundsUp(size);
    assert Pow2(11) == 2048;
    if h < 12 { PowerAtMost(h, 11); } else { PageMultiple(h); }
  }

  lemma MetaSizeIsPower()
    ensures NextHighestPowerOfTwo(META_SIZE) == META_SIZE
  {
    var h := RoundsUp(META_SIZE);
    assert Pow2(4) == META_SIZE;
  }

  lemma PageMultiple(h: nat)
    requires h >= 12
    ensures Aligned(Pow2(h)) && Pow2(h) >= PAGE_SIZE
  {
    PowerSum(12, h - 12);
    assert Pow2(12) == PAGE_SIZE;
  }
}
