/** Whole runs of the memory stack: boot, then kmalloc and kfree in any order
    (kernel/kernel/init.c, kernel/mem/kmalloc.c). */
module HeapRuns {
  import opened Memory
  import opened Pagemap
  import opened PageFlags
  import opened PageTables
  import opened Regions
  import opened MemoryBoot
  import opened Paging
  import opened HeapModel
  import opened HeapSteps
  import opened Kmalloc
  import opened BootPages
  import opened BootAddresses
  import opened KernelBoot
  import opened PfaLayout
  import opened PfaBoot
  import opened Sorting
  import opened PhysMemMap
  import FA = FrameAllocator
  import opened Wrappers

  /** The allocations in held share no byte. */
  ghost predicate NoOverlap(held: map<int, nat>) {
    forall p, q :: p in held && q in held && p < q ==> p + held[p] <= q
  }

  /** Byte x belongs to the allocation at p. */
  ghost predicate HasByte(held: map<int, nat>, p: int, x: int) {
    p in held && p <= x < p + held[p]
  }

  /** Every byte of every allocation lies in a page of the allocator that is
      mapped to itself, writable for the kernel. */
  ghost predicate Reachable(held: map<int, nat>, m: Ram, dir: Frame, managed: set<int>) {
    forall p, x :: HasByte(held, p, x) ==> OnMappedPage(m, dir, managed, x)
  }

  ghost predicate OnMappedPage(m: Ram, dir: Frame, managed: set<int>, x: int) {
    var page := x / PAGE_SIZE;
    page in managed && 0 < page < WINDOW_PAGE && Walk(m, dir, page) == Some(page) && KernelData(m, dir, page)
  }

  lemma LiveApart(s: State)
    requires Inv(s)
    ensures NoOverlap(s.live)
  {
    hide Inv;
    hide Extent;
    forall p, q | p in s.live && q in s.live && p < q
      ensures p + s.live[p] <= q
    {
      var n := LiveMemory(s, p);
      var m := LiveMemory(s, q);
      assert Extent(s, q, m);
    }
  }

  /** The pages of a live allocation are in use. */
  lemma LivePages(s: State, p: int, x: int) returns (h: int)
    requires Inv(s) && p in s.live && p <= x < p + s.live[p]
    ensures h in s.groups && h <= x / PAGE_SIZE < h + s.groups[h]
    ensures InUse(s.blocks, s.bigs, x / PAGE_SIZE)
  {
    var n := LiveMemory(s, p);
    h := ExtentWithin(s, p, n);
    assert h * PAGE_SIZE <= x < (h + s.groups[h]) * PAGE_SIZE;
    if i :| IsChunk(s, i, p) && s.blocks[i].page == h {
      assert BlockOk(s, s.blocks[i]);
    } else {
      var j :| IsBig(s, j, p) && PageOf(s.bigs[j].ptr) == h && s.bigs[j].size == n;
      assert BigOk(s, s.bigs[j]);
      assert s.bigs[j].Covers(x / PAGE_SIZE);
    }
  }

  lemma LiveReachable(heap: Heap)
    requires heap.Valid()
    ensures NoOverlap(heap.live)
    ensures Reachable(heap.live, heap.mmu.Contents(), heap.mmu.dir, heap.mmu.pfa.managed)
  {
    hide Inv;
    hide MapsExactly;
    hide Elsewhere;
    hide MappedPages;
    hide Uniform;
    hide Sound;
    hide FA.Allocator.Valid;
    hide KernelData;
    hide Walk;
    var s, m := heap.S(), heap.mmu;
    LiveApart(s);
    MappedKernelData(m.Contents(), m.dir, m.owned);
    forall p, x | HasByte(heap.live, p, x)
      ensures OnMappedPage(m.Contents(), m.dir, m.pfa.managed, x)
    {
      var h := LivePages(s, p, x);
      m.pfa.LiveManaged(h);
      MappedAt(s, heap.mapped, x / PAGE_SIZE);
      MapsAt(m.Contents(), m.dir, m.pfa.managed, heap.mapped + heap.stray, x / PAGE_SIZE);
    }
  }

  /** The callers' record after the answered requests: which addresses they hold,
      with the sizes they asked for. */
  ghost function Record(requests: seq<Request>, answers: seq<Result>): map<int, nat>
    requires |answers| <= |requests|
    decreases |answers|
  {
    if answers == [] then map[]
    else
      var n := |answers| - 1;
      Recorded(Record(requests, answers[..n]), requests[n], answers[n])
  }

  ghost function Recorded(held: map<int, nat>, request: Request, answer: Result): map<int, nat> {
    match request
    case Allocate(size) => if answer.Ptr? then held[answer.addr := size] else held
    case Deallocate(ptr) => held - {ptr}
  }

  /** Each answer is the step from its moment to the next one. */
  ghost predicate Answered(requests: seq<Request>, answers: seq<Result>, moments: seq<Moment>)
    requires forall k :: 0 <= k < |requests| ==> Servable(requests[k])
  {
    && |answers| <= |requests| && |moments| == |answers| + 1
    && (forall k :: 0 <= k < |moments| ==> moments[k].Shaped())
    && forall k :: 0 <= k < |answers| ==>
         answers[k] != Halt && Step(moments[k], requests[k], answers[k], moments[k + 1])
  }

  /** The request stops the kernel: there is memory for it, but not for the page
      tables that it needs. */
  ghost predicate Stops(m: Moment, request: Request)
    requires m.Shaped() && Servable(request)
  {
    request.Allocate? && !Exhausted(m, request.size) && Short(m, request.size)
  }

  /** A run from the first moment on, up to the last request or to the one that
      stops the kernel. */
  ghost predicate IsRun(requests: seq<Request>, first: Moment, answers: seq<Result>, moments: seq<Moment>, halted: bool)
    requires forall k :: 0 <= k < |requests| ==> Servable(requests[k])
  {
    && Answered(requests, answers, moments) && moments[0] == first
    && if halted then |answers| < |requests| && Stops(moments[|answers|], requests[|answers|])
       else |answers| == |requests|
  }

  /** The requests and the first moment determine the whole run: every address,
      every NULL, and where it stops. */
  lemma RunUnique(requests: seq<Request>, first: Moment, answers: seq<Result>, moments: seq<Moment>, halted: bool,
                  others: seq<Result>, times: seq<Moment>, stopped: bool)
    requires forall k :: 0 <= k < |requests| ==> Servable(requests[k])
    requires IsRun(requests, first, answers, moments, halted) && IsRun(requests, first, others, times, stopped)
    ensures answers == others && moments == times && halted == stopped
  {
    hide IsRun;
    if |answers| <= |others| {
      SameRun(requests, first, answers, moments, halted, others, times, stopped);
    } else {
      SameRun(requests, first, others, times, stopped, answers, moments, halted);
    }
  }

  lemma SameRun(requests: seq<Request>, first: Moment, answers: seq<Result>, moments: seq<Moment>, halted: bool,
                others: seq<Result>, times: seq<Moment>, stopped: bool)
    requires forall k :: 0 <= k < |requests| ==> Servable(requests[k])
    requires IsRun(requests, first, answers, moments, halted) && IsRun(requests, first, others, times, stopped)
    requires |answers| <= |others|
    ensures answers == others && moments == times && halted == stopped
  {
    hide Step;
    hide Stops;
    var n := |answers|;
    SamePrefix(requests, answers, moments, others, times, n);
    assert answers[..n] == answers && moments[..n + 1] == moments;
    SameEnd(requests, first, answers, moments, halted, others, times);
    assert others[..n] == others && times[..n + 1] == times;
  }

  lemma {:induction false} SamePrefix(requests: seq<Request>, answers: seq<Result>, moments: seq<Moment>,
                                      others: seq<Result>, times: seq<Moment>, n: nat)
    requires forall k :: 0 <= k < |requests| ==> Servable(requests[k])
    requires Answered(requests, answers, moments) && Answered(requests, others, times) && moments[0] == times[0]
    requires n <= |answers| <= |others|
    ensures answers[..n] == others[..n] && moments[..n + 1] == times[..n + 1]
    decreases n
  {
    hide Step;
    if n > 0 {
      var k := n - 1;
      SamePrefix(requests, answers, moments, others, times, k);
      assert moments[k] == moments[..k + 1][k] == times[..k + 1][k] == times[k];
      StepUnique(moments[k], requests[k], answers[k], moments[n], others[k], times[n]);
      assert answers[..n] == answers[..k] + [answers[k]] && others[..n] == others[..k] + [others[k]];
      assert moments[..n + 1] == moments[..n] + [moments[n]] && times[..n + 1] == times[..n] + [times[n]];
    }
  }

  /** Where one run stops, the other has no answer either. */
  lemma SameEnd(requests: seq<Request>, first: Moment, answers: seq<Result>, moments: seq<Moment>, halted: bool,
                others: seq<Result>, times: seq<Moment>)
    requires forall k :: 0 <= k < |requests| ==> Servable(requests[k])
    requires IsRun(requests, first, answers, moments, halted) && Answered(requests, others, times)
    requires |answers| <= |others| && moments == times[..|answers| + 1]
    ensures |others| == |answers|
  {
    hide Exhausted;
    hide Short;
    hide AllocStep;
    hide FreeStep;
    var n := |answers|;
    if n < |others| {
      assert moments[n] == times[n];
      StepReasons(times[n], requests[n].size, others[n], times[n + 1]);
    }
  }

  /** What the answers say: NULL comes exactly when memory is exhausted for the
      size at that moment, and then nothing changes. */
  lemma AnswerReasons(requests: seq<Request>, answers: seq<Result>, moments: seq<Moment>, k: nat)
    requires forall j :: 0 <= j < |requests| ==> Servable(requests[j])
    requires Answered(requests, answers, moments) && k < |answers| && requests[k].Allocate?
    ensures answers[k] == Null <==> Exhausted(moments[k], requests[k].size)
    ensures answers[k].Ptr? ==> !Short(moments[k], requests[k].size)
    ensures answers[k] == Null ==> moments[k + 1] == moments[k]
  {
    hide Exhausted;
    hide Short;
    hide AllocStep;
    hide FreeStep;
    assert Step(moments[k], requests[k], answers[k], moments[k + 1]);
    StepReasons(moments[k], requests[k].size, answers[k], moments[k + 1]);
    if answers[k] == Null {
      NullKeeps(moments[k], requests[k].size, answers[k], moments[k + 1]);
    }
  }

  lemma NullKeeps(m: Moment, size: nat, r: Result, n: Moment)
    requires m.Shaped() && size <= 0x8000_0000 && AllocStep(m, size, r, n) && r == Null
    ensures n == m
  {
    hide RoundedUp;
  }

  /** Every address is new to the callers. */
  ghost predicate NewAddresses(requests: seq<Request>, answers: seq<Result>)
    requires |answers| <= |requests|
  {
    forall k :: 0 <= k < |answers| && answers[k].Ptr? ==> answers[k].addr !in Record(requests, answers[..k])
  }

  lemma OneMore(requests: seq<Request>, answers: seq<Result>, moments: seq<Moment>, answer: Result, next: Moment)
    requires forall k :: 0 <= k < |requests| ==> Servable(requests[k])
    requires Answered(requests, answers, moments) && |answers| < |requests| && next.Shaped() && answer != Halt
    requires Step(moments[|answers|], requests[|answers|], answer, next)
    ensures Answered(requests, answers + [answer], moments + [next])
  {
    hide Step;
    var n, all, times := |answers|, answers + [answer], moments + [next];
    forall k | 0 <= k < |all|
      ensures all[k] != Halt && Step(times[k], requests[k], all[k], times[k + 1])
    {
      if k < n {
        assert all[k] == answers[k] && times[k] == moments[k] && times[k + 1] == moments[k + 1];
      }
    }
  }

  lemma OneMoreRecord(requests: seq<Request>, answers: seq<Result>, answer: Result)
    requires |answers| < |requests| && NewAddresses(requests, answers)
    requires answer.Ptr? ==> answer.addr !in Record(requests, answers)
    ensures NewAddresses(requests, answers + [answer])
    ensures Record(requests, answers + [answer]) == Recorded(Record(requests, answers), requests[|answers|], answer)
  {
    var n, all := |answers|, answers + [answer];
    assert all[..n] == answers;
    forall k | 0 <= k < |all| && all[k].Ptr?
      ensures all[k].addr !in Record(requests, all[..k])
    {
      assert k < n ==> all[..k] == answers[..k];
    }
  }

  /** Any requests of callers that free only what they hold; other releases are
      not made.  What the callers hold is what the answers gave them. */
  method Run(heap: Heap, requests: seq<Request>)
    returns (answers: seq<Result>, halted: bool, held: map<int, nat>, ghost moments: seq<Moment>)
    requires heap.Valid() && heap.live == map[]
    requires forall k :: 0 <= k < |requests| ==> Servable(requests[k])
    modifies heap, heap.Repr, heap.mmu`owned, heap.mmu.ram, heap.mmu.pfa.Repr
    ensures IsRun(requests, old(heap.Now()), answers, moments, halted)
    ensures held == Record(requests, answers) && NewAddresses(requests, answers)
    ensures !halted ==> moments[|answers|] == heap.Now()
    ensures !halted ==> heap.Valid() && heap.live == held && NoOverlap(held)
    ensures !halted ==>
      && Reachable(held, heap.mmu.Contents(), heap.mmu.dir, heap.mmu.pfa.managed)
      && Elsewhere(heap.mmu.Contents(), heap.mmu.dir, heap.mmu.pfa.managed, heap.boot)
      && AllKernelData(heap.mmu.Contents(), heap.mmu.dir)
  {
    hide Heap.Valid;
    hide Inv;
    hide Record;
    hide NewAddresses;
    hide AllocStep;
    hide FreeStep;
    hide Exhausted;
    hide Short;
    hide Mmu.Slots;
    heap.ValidShape();
    held, answers, moments := map[], [], [heap.Now()];
    NoAnswers(requests);
    for k := 0 to |requests|
      invariant heap.Valid() && heap.live == held && fresh(heap.Repr - old(heap.Repr))
      invariant |answers| == k && Answered(requests, answers, moments)
      invariant held == Record(requests, answers) && NewAddresses(requests, answers)
      invariant moments[0] == old(heap.Now()) && moments[k] == heap.Now()
    {
      var r := Null;
      match requests[k] {
        case Allocate(size) =>
          r := heap.Kmalloc(size);
          if r.Halt? {
            return answers, true, held, moments;
          }
          OneMoreRecord(requests, answers, r);
          if r.Ptr? {
            held := held[r.addr := size];
          }
        case Deallocate(ptr) =>
          OneMoreRecord(requests, answers, r);
          if ptr in held {
            HeldIsNotMeta(heap, ptr);
            var panicked := heap.Kfree(ptr);
          }
          held := held - {ptr};
      }
      OneMore(requests, answers, moments, r, heap.Now());
      answers, moments := answers + [r], moments + [heap.Now()];
    }
    LiveReachable(heap);
    BootKeeps(heap);
    halted := false;
  }

  lemma BootKeeps(heap: Heap)
    requires heap.Valid()
    ensures Elsewhere(heap.mmu.Contents(), heap.mmu.dir, heap.mmu.pfa.managed, heap.boot)
    ensures AllKernelData(heap.mmu.Contents(), heap.mmu.dir)
  {
    hide Inv;
    hide MapsExactly;
    hide Elsewhere;
    hide MappedPages;
    hide Uniform;
    hide Sound;
    hide AllKernelData;
    hide FA.Allocator.Valid;
    MappedKernelData(heap.mmu.Contents(), heap.mmu.dir, heap.mmu.owned);
  }

  lemma NoAnswers(requests: seq<Request>)
    ensures Record(requests, []) == map[] && NewAddresses(requests, [])
  {
  }

  lemma HeldIsNotMeta(heap: Heap, ptr: int)
    requires heap.Valid() && ptr in heap.live
    ensures forall j :: !IsMeta(heap.S(), j, ptr)
  {
    hide Inv;
    UniqueOwner(heap.S(), ptr);
  }

  /** Every byte of every allocation is memory that the boot loader called
      available, and none of it belongs to the kernel, the memory map, the
      module, the allocator's metadata or low memory. */
  ghost predicate OnlyFreeBytes(held: map<int, nat>, mbi: Multiboot, ms: seq<MmapEntry>, kernelEnd: nat, b: Facts) {
    forall p, x :: HasByte(held, p, x) ==> ByteIsFree(mbi, ms, kernelEnd, b.pmmAddr, b.meta, b.metaSize, x)
  }

  lemma HeldIsFree(held: map<int, nat>, m: Ram, dir: Frame, managed: set<int>,
                   mbi: Multiboot, ms: seq<MmapEntry>, kernelEnd: nat, b: Facts)
    requires Reachable(held, m, dir, managed)
    requires forall p :: p in managed ==> PageIsFree(mbi, ms, kernelEnd, b.pmmAddr, b.meta, b.metaSize, p)
    ensures OnlyFreeBytes(held, mbi, ms, kernelEnd, b)
  {
    hide PageIsFree;
    hide ByteIsFree;
    forall p, x | HasByte(held, p, x)
      ensures ByteIsFree(mbi, ms, kernelEnd, b.pmmAddr, b.meta, b.metaSize, x)
    {
      assert OnMappedPage(m, dir, managed, x);
      PageHasByte(mbi, ms, kernelEnd, b.pmmAddr, b.meta, b.metaSize, x);
    }
  }

  lemma StillMapsBoot(m: Ram, dir: Frame, managed: set<int>, boot: set<int>, mbi: Multiboot, kernelEnd: nat,
                      meta: nat, metaSize: nat)
    requires Elsewhere(m, dir, managed, boot)
    requires forall p :: p in boot <==> MappedAtBoot(mbi, kernelEnd, meta, metaSize, p)
    ensures KeepsBoot(m, dir, managed, mbi, kernelEnd, meta, metaSize)
  {
    hide Walk;
    hide MappedAtBoot;
  }

  /** The whole memory stack, from the boot loader's map to the last request: the
      run starts at the moment that the boot leaves behind. */
  method BootAndRun(mbi: Multiboot, mmap: array<MmapEntry>, kernelEnd: nat, ram: array2<Word>, requests: seq<Request>)
    returns (r: BootResult, answers: seq<Result>, halted: bool, held: map<int, nat>, heap: Heap?,
             ghost b: Facts, ghost moments: seq<Moment>)
    requires WellFormedBag(multiset(mmap[..])) && RamFits(multiset(mmap[..]))
    requires StructuresInRam(mbi, mmap.Length) && PmmSize(mmap.Length, true) + PAGE_SIZE <= ADDRESS_SPACE - TABLE_WINDOW
    requires KERNEL_START < kernelEnd < TABLE_WINDOW
    requires ram.Length0 == NB_FRAMES && ram.Length1 == NB_SLOTS
    requires forall k :: 0 <= k < |requests| ==> Servable(requests[k])
    modifies mmap, ram
    ensures multiset(mmap[..]) == multiset(old(mmap[..]))
    ensures Complete(mbi) ==> SortedBy((m: MmapEntry) => m.addr, mmap[..])
    ensures BootsTo(mbi, mmap[..], kernelEnd, r, b)
    ensures r == Booted ==>
      IsRun(requests, b.first, answers, moments, halted)
      && held == Record(requests, answers) && NewAddresses(requests, answers)
    ensures r == Booted && !halted ==>
      && NoOverlap(held) && OnlyFreeBytes(held, mbi, mmap[..], kernelEnd, b)
      && heap != null && heap.mmu.ram == ram && heap.mmu.pagingEnabled && heap.mmu.Located() && heap.mmu.Shape()
      && Reachable(held, heap.mmu.Contents(), heap.mmu.dir, b.managed)
      && KeepsBoot(heap.mmu.Contents(), heap.mmu.dir, b.managed, mbi, kernelEnd, b.meta, b.metaSize)
      && AllKernelData(heap.mmu.Contents(), heap.mmu.dir)
    ensures r == Booted ==>
      forall p :: p in b.managed <==> PageIsFree(mbi, mmap[..], kernelEnd, b.pmmAddr, b.meta, b.metaSize, p)
  {
    hide Heap.Valid;
    hide Heap.Now;
    hide FA.Allocator.Valid;
    hide WellFormedBag;
    hide RamFits;
    hide StructuresInRam;
    hide SortedBy;
    hide BootsTo;
    hide BootKept;
    hide OwnsMemory;
    hide IsRun;
    hide Record;
    hide NewAddresses;
    hide Reachable;
    hide NoOverlap;
    hide OnlyFreeBytes;
    hide Stray;
    hide Elsewhere;
    hide AllKernelData;
    hide KeepsBoot;
    hide MapsBoot;
    hide MappedAtBoot;
    hide PageIsFree;
    hide ApartFromLoader;
    answers, halted, held, moments := [], false, map[], [];
    var pfa;
    r, heap, pfa, b := MemInit(mbi, mmap, kernelEnd, ram);
    ghost var ms := mmap[..];
    if r == Booted {
      HeapApart(heap);
      answers, halted, held, moments := Run(heap, requests);
      assert mmap[..] == ms;
      if !halted {
        ghost var mmu := heap.mmu;
        HeapLocated(heap);
        HeldIsFree(held, mmu.Contents(), mmu.dir, b.managed, mbi, ms, kernelEnd, b);
        StillMapsBoot(mmu.Contents(), mmu.dir, b.managed, heap.boot, mbi, kernelEnd, b.meta, b.metaSize);
      }
    }
  }

  lemma HeapApart(heap: Heap)
    requires heap.Valid()
    ensures heap.mmu !in heap.Repr && heap.mmu !in heap.mmu.pfa.Repr
  {
  }

  lemma HeapLocated(heap: Heap)
    requires heap.Valid()
    ensures heap.mmu.Located()
  {
  }

  /** The boot loader's map, in any order, and the requests determine the outcome
      of the boot and every answer after it. */
  lemma OutcomeUnique(mbi: Multiboot, ms: seq<MmapEntry>, ns: seq<MmapEntry>, kernelEnd: nat, requests: seq<Request>,
                      r: BootResult, b: Facts, answers: seq<Result>, moments: seq<Moment>, halted: bool,
                      q: BootResult, c: Facts, others: seq<Result>, times: seq<Moment>, stopped: bool)
    requires KERNEL_START < kernelEnd < TABLE_WINDOW && forall k :: 0 <= k < |requests| ==> Servable(requests[k])
    requires WellFormedBag(multiset(ms)) && multiset(ms) == multiset(ns)
    requires Complete(mbi) ==> SortedBy((m: MmapEntry) => m.addr, ms) && SortedBy((m: MmapEntry) => m.addr, ns)
    requires BootsTo(mbi, ms, kernelEnd, r, b) && BootsTo(mbi, ns, kernelEnd, q, c)
    requires r == Booted ==> IsRun(requests, b.first, answers, moments, halted)
    requires q == Booted ==> IsRun(requests, c.first, others, times, stopped)
    ensures r == q
    ensures r == Booted ==> b == c && answers == others && moments == times && halted == stopped
  {
    hide BootsTo;
    hide IsRun;
    hide WellFormedBag;
    hide SortedBy;
    if Complete(mbi) {
      SameMap(ms, ns);
      BootUnique(mbi, ms, kernelEnd, r, b, q, c);
      if r == Booted {
        RunUnique(requests, b.first, answers, moments, halted, others, times, stopped);
      }
    } else {
      NoMapGiven(mbi, ms, kernelEnd, r, b);
      NoMapGiven(mbi, ns, kernelEnd, q, c);
    }
  }

  lemma NoMapGiven(mbi: Multiboot, ms: seq<MmapEntry>, kernelEnd: nat, r: BootResult, b: Facts)
    requires KERNEL_START < kernelEnd < TABLE_WINDOW && BootsTo(mbi, ms, kernelEnd, r, b) && !Complete(mbi)
    ensures r == NoMemoryMap
  {
    assert !HasRoomFor(mbi, ms, kernelEnd);
  }
}
