/** What page tables in physical memory mean: the processor's two-level walk,
    and how single entries change it (kernel/mem/paging.c; Intel SDM volume 3A,
    section 4.3, 32-bit paging). */
module PageTables {
  import opened Memory
  import opened PageFlags
  import opened Wrappers

  const NB_FRAMES: nat := 0x100000
  const NB_SLOTS: nat := 1024

  // The directory slot that points to the directory itself, and the first
  // virtual page that it maps.
  const SELF_SLOT: nat := 1023
  const WINDOW_PAGE: nat := 0xffc00

  // Where the directory is seen once paging is enabled.
  const DIRECTORY_WINDOW: nat := 0xfffff000

  type Frame = n: nat | n < NB_FRAMES

  // A 32-bit word of a page table: the page number in the upper twenty bits
  // and the flags in the lower twelve.
  datatype Word = Word(frame: Frame, flags: Flags)

  // Physical memory: the words of each frame.
  type Ram = m: seq<seq<Word>> | |m| == NB_FRAMES && forall f :: 0 <= f < NB_FRAMES ==> |m[f]| == NB_SLOTS
    ghost witness seq(NB_FRAMES, _ => seq(NB_SLOTS, _ => Word(0, 0)))

  /** Memory after storing w. */
  function Put(m: Ram, frame: Frame, slot: nat, w: Word): Ram
    requires slot < NB_SLOTS
  {
    m[frame := m[frame][slot := w]]
  }

  /** The processor's walk from the directory in frame dir: the frame that
      holds virtual page vpn. */
  function Walk(m: Ram, dir: Frame, vpn: Frame): Option<Frame> {
    var pde := m[dir][vpn / NB_SLOTS];
    var pte := m[pde.frame][vpn % NB_SLOTS];
    if IsPresent(pde.flags) && IsPresent(pte.flags) then Some(pte.frame) else None
  }

  function Translate(m: Ram, dir: Frame, virt: Address): Option<Address> {
    match Walk(m, dir, virt / PAGE_SIZE)
    case None => None
    case Some(frame) => Some(frame * PAGE_SIZE + virt % PAGE_SIZE)
  }

  predicate SelfMapped(m: Ram, dir: Frame) {
    IsPresent(m[dir][SELF_SLOT].flags) && m[dir][SELF_SLOT].frame == dir
  }

  /** Slot pd points to a page table. */
  predicate HasTable(m: Ram, dir: Frame, pd: int) {
    0 <= pd < SELF_SLOT && IsPresent(m[dir][pd].flags)
  }

  /** The directory slots that point to a page table. */
  function TableSlots(m: Ram, dir: Frame): set<int> {
    set pd | 0 <= pd < SELF_SLOT && HasTable(m, dir, pd)
  }

  lemma SlotsAre(m: Ram, dir: Frame, pd: int)
    ensures pd in TableSlots(m, dir) <==> HasTable(m, dir, pd)
  {
  }

  lemma SameSlots(m: Ram, n: Ram, dir: Frame)
    requires m[dir] == n[dir]
    ensures TableSlots(m, dir) == TableSlots(n, dir)
  {
    assert forall pd :: HasTable(n, dir, pd) == HasTable(m, dir, pd);
  }

  /** The directory and the page tables are pairwise distinct frames, and owned
      is the set of them. */
  ghost predicate Tables(m: Ram, dir: Frame, owned: set<int>) {
    && dir in owned
    && (forall pd :: HasTable(m, dir, pd) ==> m[dir][pd].frame != dir && m[dir][pd].frame in owned)
    && (forall pd, qd :: HasTable(m, dir, pd) && HasTable(m, dir, qd) && pd != qd ==>
          m[dir][pd].frame != m[dir][qd].frame)
    && (forall f :: f in owned ==> f == dir || exists pd :: HasTable(m, dir, pd) && m[dir][pd].frame == f)
  }

  lemma TablesHaveDirectory(m: Ram, dir: Frame, owned: set<int>)
    requires Tables(m, dir, owned)
    ensures dir in owned
  {
  }

  /** Every entry of a page table has the shared bits of its directory entry. */
  ghost predicate ConsistentFlags(m: Ram, dir: Frame) {
    forall pd, pt :: HasTable(m, dir, pd) && 0 <= pt < NB_SLOTS ==>
      Shared(m[m[dir][pd].frame][pt].flags) == Shared(m[dir][pd].flags)
  }

  ghost predicate Sound(m: Ram, dir: Frame, owned: set<int>) {
    SelfMapped(m, dir) && Tables(m, dir, owned) && ConsistentFlags(m, dir)
  }

  lemma SoundSelfMapped(m: Ram, dir: Frame, owned: set<int>)
    requires Sound(m, dir, owned)
    ensures SelfMapped(m, dir) && dir in owned
  {
    TablesHaveDirectory(m, dir, owned);
  }

  /** Outside the self-mapping slot both memories translate alike, except page vpn. */
  ghost predicate SameWalks(m: Ram, n: Ram, dir: Frame, vpns: set<Frame>) {
    forall v: Frame :: v < WINDOW_PAGE && v !in vpns ==> Walk(n, dir, v) == Walk(m, dir, v)
  }

  lemma JoinWalks(m: Ram, n: Ram, o: Ram, dir: Frame, vpn: Frame)
    requires SameWalks(m, n, dir, {}) && SameWalks(n, o, dir, {vpn})
    ensures SameWalks(m, o, dir, {vpn})
    ensures vpn < WINDOW_PAGE ==> Walk(n, dir, vpn) == Walk(m, dir, vpn)
  {
  }

  /** All page tables carry the shared bits of flags. */
  ghost predicate Uniform(m: Ram, dir: Frame, flags: Flags) {
    forall pd :: HasTable(m, dir, pd) ==> Shared(m[dir][pd].flags) == Shared(flags)
  }

  lemma UniformKept(m: Ram, n: Ram, dir: Frame, flags: Flags)
    requires m[dir] == n[dir]
    ensures Uniform(m, dir, flags) ==> Uniform(n, dir, flags)
  {
    assert forall pd :: HasTable(n, dir, pd) == HasTable(m, dir, pd);
  }

  lemma SameWalk(m: Ram, n: Ram, dir: Frame, vpn: Frame)
    requires SameWalks(m, n, dir, {})
    ensures vpn < WINDOW_PAGE ==> Walk(n, dir, vpn) == Walk(m, dir, vpn)
  {
  }

  lemma SameAsBefore(m: Ram, dir: Frame)
    ensures SameWalks(m, m, dir, {})
  {
  }

  lemma UniformPde(m: Ram, dir: Frame, flags: Flags, pd: int)
    requires Uniform(m, dir, flags)
    ensures HasTable(m, dir, pd) ==> Shared(m[dir][pd].flags) == Shared(flags)
  {
  }

  /** Both entries of the page are present, writable, for the kernel only,
      write-through and uncached: bits 0, 1, 2, 3 and 4. */
  ghost predicate KernelData(m: Ram, dir: Frame, vpn: Frame) {
    var pde := m[dir][vpn / NB_SLOTS];
    pde.flags & 0x01f == 0x01b && m[pde.frame][vpn % NB_SLOTS].flags & 0x01f == 0x01b
  }

  /** So are all mapped pages below the window when the tables were made with the
      flags of the kernel. */
  ghost predicate AllKernelData(m: Ram, dir: Frame) {
    forall v: Frame :: v < WINDOW_PAGE && Walk(m, dir, v).Some? ==> KernelData(m, dir, v)
  }

  lemma MappedKernelData(m: Ram, dir: Frame, owned: set<int>)
    requires Sound(m, dir, owned) && Uniform(m, dir, RW_KERNEL_NOCACHE)
    ensures AllKernelData(m, dir)
  {
    hide Tables;
    forall v: Frame | v < WINDOW_PAGE && Walk(m, dir, v).Some?
      ensures KernelData(m, dir, v)
    {
      var pd := v / NB_SLOTS;
      assert HasTable(m, dir, pd);
      KernelBits(m[dir][pd].flags);
      KernelBits(m[m[dir][pd].frame][v % NB_SLOTS].flags);
    }
  }

  lemma KernelBits(f: Flags)
    requires IsPresent(f) && Shared(f) == Shared(RW_KERNEL_NOCACHE)
    ensures f & 0x01f == 0x01b
  {
  }

  /** The self-map: the directory window reaches the directory, and each
      table's window reaches that table. */
  lemma SelfMap(m: Ram, dir: Frame, pd: nat, pt: nat)
    requires SelfMapped(m, dir) && pd < NB_SLOTS && pt < NB_SLOTS
    ensures Translate(m, dir, DIRECTORY_WINDOW + 4 * pd) == Some(dir * PAGE_SIZE + 4 * pd)
    ensures Translate(m, dir, TABLE_WINDOW + pd * PAGE_SIZE + 4 * pt) ==
            if IsPresent(m[dir][pd].flags) then Some(m[dir][pd].frame * PAGE_SIZE + 4 * pt) else None
  {
    var v := TABLE_WINDOW + pd * PAGE_SIZE + 4 * pt;
    assert v / PAGE_SIZE == WINDOW_PAGE + pd;
    assert (WINDOW_PAGE + pd) / NB_SLOTS == SELF_SLOT && (WINDOW_PAGE + pd) % NB_SLOTS == pd;
    assert (DIRECTORY_WINDOW + 4 * pd) / PAGE_SIZE == 0xfffff;
  }

  /** A table with no present entry that keeps the other flags. */
  function BlankTable(flags: Flags): seq<Word> {
    seq(NB_SLOTS, _ => Word(0, ClearPresent(flags)))
  }

  /** Memory after a fresh frame nf became the table of slot pd with no present entry. */
  function AddTable(m: Ram, dir: Frame, pd: nat, nf: Frame, flags: Flags): Ram
    requires pd < SELF_SLOT
  {
    Put(m, dir, pd, Word(nf, DirectoryFlags(flags)))[nf := BlankTable(flags)]
  }

  lemma AddTableSound(m: Ram, dir: Frame, owned: set<int>, pd: nat, nf: Frame, flags: Flags)
    requires Sound(m, dir, owned)
    requires pd < SELF_SLOT && !HasTable(m, dir, pd) && nf !in owned
    ensures Sound(AddTable(m, dir, pd, nf, flags), dir, owned + {nf})
  {
    var n := AddTable(m, dir, pd, nf, flags);
    forall f | f in owned + {nf}
      ensures f == dir || exists qd :: HasTable(n, dir, qd) && n[dir][qd].frame == f
    {
      if f == nf {
        assert HasTable(n, dir, pd);
      } else if f != dir {
        var qd :| HasTable(m, dir, qd) && m[dir][qd].frame == f;
        assert HasTable(n, dir, qd);
      }
    }
    forall qd | HasTable(n, dir, qd) && qd != pd
      ensures HasTable(m, dir, qd) && n[dir][qd] == m[dir][qd] && n[n[dir][qd].frame] == m[m[dir][qd].frame]
    {
    }
  }

  /** The directory after a new table: slot pd has the shared bits of flags. */
  lemma AddTableEntry(m: Ram, dir: Frame, pd: nat, nf: Frame, flags: Flags)
    requires pd < SELF_SLOT && nf != dir
    ensures var n := AddTable(m, dir, pd, nf, flags);
      && HasTable(n, dir, pd) && n[dir][pd].frame == nf && Shared(n[dir][pd].flags) == Shared(flags)
      && (Uniform(m, dir, flags) ==> Uniform(n, dir, flags))
      && TableSlots(n, dir) == TableSlots(m, dir) + {pd}
  {
    var n := AddTable(m, dir, pd, nf, flags);
    assert forall qd :: qd != pd ==> HasTable(n, dir, qd) == HasTable(m, dir, qd);
    forall qd | HasTable(n, dir, qd) && qd != pd
      ensures HasTable(m, dir, qd) && n[dir][qd] == m[dir][qd]
    {
    }
  }

  /** A new table maps nothing. */
  lemma AddTableWalks(m: Ram, dir: Frame, owned: set<int>, pd: nat, nf: Frame, flags: Flags)
    requires Sound(m, dir, owned)
    requires pd < SELF_SLOT && !HasTable(m, dir, pd) && nf !in owned
    ensures SameWalks(m, AddTable(m, dir, pd, nf, flags), dir, {})
  {
    var n := AddTable(m, dir, pd, nf, flags);
    forall v: Frame | v < WINDOW_PAGE
      ensures Walk(n, dir, v) == Walk(m, dir, v)
    {
      var qd := v / NB_SLOTS;
      if qd != pd {
        assert n[dir][qd] == m[dir][qd];
        assert HasTable(m, dir, qd) <==> IsPresent(m[dir][qd].flags);
      }
    }
  }

  /** Writing an entry of the table of virtual page vpn changes the
      translation of that page and of no other. */
  lemma PutEntry(m: Ram, dir: Frame, owned: set<int>, vpn: Frame, w: Word)
    requires Sound(m, dir, owned)
    requires vpn < WINDOW_PAGE && HasTable(m, dir, vpn / NB_SLOTS)
    requires Shared(w.flags) == Shared(m[dir][vpn / NB_SLOTS].flags)
    ensures var n := Put(m, m[dir][vpn / NB_SLOTS].frame, vpn % NB_SLOTS, w);
      && Sound(n, dir, owned)
      && SameWalks(m, n, dir, {vpn})
      && Walk(n, dir, vpn) == (if IsPresent(w.flags) then Some(w.frame) else None)
      && n[dir] == m[dir]
  {
    var pd := vpn / NB_SLOTS;
    var n := Put(m, m[dir][pd].frame, vpn % NB_SLOTS, w);
    assert n[dir] == m[dir];
    forall qd | 0 <= qd < NB_SLOTS
      ensures HasTable(n, dir, qd) == HasTable(m, dir, qd)
    {
    }
    forall v: Frame | v < WINDOW_PAGE && v != vpn
      ensures Walk(n, dir, v) == Walk(m, dir, v)
    {
      assert HasTable(m, dir, v / NB_SLOTS) <==> IsPresent(m[dir][v / NB_SLOTS].flags);
    }
  }

  /** Writing an absent directory entry in the way of a page-table entry, which is
      what an address in the self-mapping slot leads to, makes some frame a page
      table that is none. */
  lemma WindowEntryBreaks(m: Ram, dir: Frame, owned: set<int>, pt: nat, w: Word)
    requires Sound(m, dir, owned) && pt < NB_SLOTS && !IsPresent(m[dir][pt].flags) && IsPresent(w.flags)
    ensures pt < SELF_SLOT && !Sound(Put(m, dir, pt, w), dir, owned)
    ensures Walk(Put(m, dir, pt, w), dir, WINDOW_PAGE + pt) == Some(w.frame)
  {
    var n := Put(m, dir, pt, w);
    assert HasTable(n, dir, pt) && n[dir][pt].frame == w.frame;
    if w.frame in owned && w.frame != dir {
      var qd :| HasTable(m, dir, qd) && m[dir][qd].frame == w.frame;
      assert HasTable(n, dir, qd) && n[dir][qd].frame == w.frame && qd != pt;
    }
  }

  /** A page of the self-mapping slot is where a directory entry points to. */
  lemma WindowWalk(m: Ram, dir: Frame, pt: nat)
    requires SelfMapped(m, dir) && pt < NB_SLOTS
    ensures Walk(m, dir, WINDOW_PAGE + pt) == if IsPresent(m[dir][pt].flags) then Some(m[dir][pt].frame) else None
  {
  }
}
