/** Lists of typed physical memory regions: the type of each byte, and what
    splitting and reserving do to it (kernel/mem/phys_mem_map.c). */
module Regions {
  import opened Memory

  // enum phys_mmap_type; other types pass through unchanged
  const AVAILABLE: int := 1
  const RESERVED: int := 2

  datatype Entry = Entry(addr: nat, len: nat, kind: int) {
    function End(): nat { addr + len }

    // The 32-bit sum of the source: a region that reaches four gigabytes ends at zero.
    function WrappedEnd(): nat { Sum32(addr, len) }

    predicate Covers(x: int) { addr <= x < End() }
  }

  type Entries = seq<Entry>

  /** Sorted by address and disjoint, within four gigabytes. */
  ghost predicate Ordered(es: Entries) {
    && (forall i :: 0 <= i < |es| ==> es[i].addr < ADDRESS_SPACE && es[i].End() <= ADDRESS_SPACE)
    && (forall i, j :: 0 <= i < j < |es| ==> es[i].End() <= es[j].addr)
  }

  /** Byte x has type t. */
  ghost predicate HasType(es: Entries, x: int, t: int) {
    exists i :: 0 <= i < |es| && es[i].Covers(x) && es[i].kind == t
  }

  /** A byte has at most one type. */
  lemma TypeUnique(es: Entries, x: int, t: int, u: int)
    requires Ordered(es) && HasType(es, x, t) && HasType(es, x, u)
    ensures t == u
  {
    var i :| 0 <= i < |es| && es[i].Covers(x) && es[i].kind == t;
    var j :| 0 <= j < |es| && es[j].Covers(x) && es[j].kind == u;
    assert !(i < j) && !(j < i);
  }

  ghost predicate SameTypes(es: Entries, fs: Entries) {
    forall x, t :: HasType(fs, x, t) <==> HasType(es, x, t)
  }

  /** The bytes of [addr, addr + len) are reserved and all others keep their type. */
  ghost predicate ReservedIn(es: Entries, fs: Entries, addr: int, len: int) {
    forall x, t :: HasType(fs, x, t) <==> if addr <= x < addr + len then t == RESERVED else HasType(es, x, t)
  }

  function Split(es: Entries, k: nat, a: nat): Entries
    requires k < |es| && es[k].addr <= a <= es[k].End()
  {
    es[..k] + [es[k].(len := a - es[k].addr), Entry(a, es[k].End() - a, es[k].kind)] + es[k + 1..]
  }

  lemma SplitEntries(es: Entries, k: nat, a: nat)
    requires k < |es| && es[k].addr < a < es[k].End()
    ensures var fs := Split(es, k, a);
      && |fs| == |es| + 1
      && (forall i :: 0 <= i < k ==> fs[i] == es[i])
      && fs[k].addr == es[k].addr && fs[k].End() == a == fs[k + 1].addr && fs[k + 1].End() == es[k].End()
      && fs[k].kind == fs[k + 1].kind == es[k].kind
      && (forall i :: k + 2 <= i < |fs| ==> fs[i] == es[i - 1])
  {
  }

  /** The array after the entries behind k moved up and entry k was cut at a. */
  lemma SplitInPlace(before: Entries, after: Entries, len: nat, k: nat, a: nat)
    requires k < len < |before| == |after| && before[k].addr < a < before[k].End()
    requires forall i :: 0 <= i < k ==> after[i] == before[i]
    requires after[k] == before[k].(len := a - before[k].addr)
    requires after[k + 1] == Entry(a, before[k].End() - a, before[k].kind)
    requires forall i :: k + 2 <= i <= len ==> after[i] == before[i - 1]
    ensures after[..len + 1] == Split(before[..len], k, a)
  {
    var es, fs := before[..len], Split(before[..len], k, a);
    assert |fs| == len + 1;
    forall i | 0 <= i <= len
      ensures after[i] == fs[i]
    {
    }
  }

  /** Each byte keeps its type when an entry is cut in two. */
  lemma SplitType(es: Entries, k: nat, a: nat, x: int, t: int)
    requires k < |es| && es[k].addr < a < es[k].End()
    ensures HasType(Split(es, k, a), x, t) <==> HasType(es, x, t)
  {
    hide Split;
    var fs := Split(es, k, a);
    SplitEntries(es, k, a);
    if i :| 0 <= i < |fs| && fs[i].Covers(x) && fs[i].kind == t {
      assert es[if i <= k then i else i - 1].Covers(x);
    }
    if j :| 0 <= j < |es| && es[j].Covers(x) && es[j].kind == t {
      assert fs[if j < k || (j == k && x < a) then j else j + 1].Covers(x);
    }
  }

  lemma SplitOrdered(es: Entries, k: nat, a: nat)
    requires k < |es| && es[k].addr < a < es[k].End() && Ordered(es)
    ensures Ordered(Split(es, k, a))
  {
    hide Split;
    var fs := Split(es, k, a);
    SplitEntries(es, k, a);
    forall i, j | 0 <= i < j < |fs|
      ensures fs[i].End() <= fs[j].addr
    {
      var p, q := if i <= k then i else i - 1, if j <= k then j else j - 1;
      assert p == q || es[p].End() <= es[q].addr;
    }
  }

  lemma SplitKeeps(es: Entries, k: nat, a: nat)
    requires k < |es| && es[k].addr < a < es[k].End() && Ordered(es)
    ensures Ordered(Split(es, k, a)) && SameTypes(es, Split(es, k, a))
  {
    hide Split;
    hide Ordered;
    hide HasType;
    SplitOrdered(es, k, a);
    forall x, t
      ensures HasType(Split(es, k, a), x, t) <==> HasType(es, x, t)
    {
      SplitType(es, k, a, x, t);
    }
  }

  lemma ReserveKeeps(es: Entries, k: nat)
    requires k < |es| && Ordered(es)
    ensures Ordered(es[k := es[k].(kind := RESERVED)])
    ensures ReservedIn(es, es[k := es[k].(kind := RESERVED)], es[k].addr, es[k].len)
  {
    var fs := es[k := es[k].(kind := RESERVED)];
    forall x, t
      ensures HasType(fs, x, t) <==> if es[k].Covers(x) then t == RESERVED else HasType(es, x, t)
    {
      if es[k].Covers(x) {
        assert fs[k].Covers(x);
        assert forall i :: 0 <= i < |fs| && fs[i].Covers(x) ==> i == k;
      } else {
        assert forall i :: 0 <= i < |fs| && i != k ==> fs[i] == es[i];
      }
    }
  }

  /** An available entry that holds the whole range. */
  predicate Fits(e: Entry, addr: nat, len: nat) {
    e.kind == AVAILABLE && e.addr <= addr && addr + len <= e.WrappedEnd()
  }

  /** An entry that reaches four gigabytes never holds a non-empty range: the
      source can then not use any of it. */
  lemma TopEntryUnusable(e: Entry, addr: nat, len: nat)
    requires e.End() == ADDRESS_SPACE && len > 0
    ensures !Fits(e, addr, len)
  {
  }

  ghost predicate HasFit(es: Entries, addr: nat, len: nat) {
    exists i :: 0 <= i < |es| && Fits(es[i], addr, len)
  }

  /** The entry that holds a non-empty range is unique. */
  lemma FitsUnique(es: Entries, i: nat, j: nat, addr: nat, len: nat)
    requires Ordered(es) && i < |es| && j < |es| && len > 0
    requires Fits(es[i], addr, len) && Fits(es[j], addr, len)
    ensures i == j
  {
    assert es[i].End() <= ADDRESS_SPACE && es[j].End() <= ADDRESS_SPACE;
    assert !(i < j) && !(j < i);
  }

  // --------------------------------------------------------------------------
  // The retries of reserve_region

  ghost predicate Aimed(fs: Entries, addr: nat, size: nat, i: int) {
    0 <= i < |fs| && Fits(fs[i], addr, size) && fs[i].addr == addr
  }

  ghost predicate Exact(fs: Entries, addr: nat, size: nat, i: int) {
    0 <= i < |fs| && fs[i] == Entry(addr, size, AVAILABLE) && addr + size < ADDRESS_SPACE
  }

  ghost predicate EndsAt(fs: Entries, addr: nat, i: int) {
    0 <= i < |fs| && fs[i].kind == AVAILABLE && fs[i].addr < addr == fs[i].End() < ADDRESS_SPACE
  }

  /** How the entries look after a number of splits for the range: the first
      split aims an entry at its address, the second makes it exact. */
  ghost predicate Progress(es: Entries, fs: Entries, addr: nat, size: nat, splits: nat) {
    && |fs| == |es| + splits && splits <= 2
    && Ordered(fs) && SameTypes(es, fs)
    && (if splits == 0 then fs == es else HasFit(es, addr, size))
    && (splits == 1 && size > 0 ==> exists i :: Aimed(fs, addr, size, i))
    && (splits == 2 ==> size > 0 && exists i :: Exact(fs, addr, size, i))
    && (splits == 1 && size == 0 ==> !EmptyFit(es, addr) && exists i :: EndsAt(fs, addr, i))
  }

  /** The search for an empty range ends at an empty entry. */
  ghost predicate EmptyFit(es: Entries, addr: nat) {
    exists k: nat :: FirstFit(es, addr, 0, k) && es[k].len == 0
  }

  ghost predicate FirstFit(fs: Entries, addr: nat, size: nat, k: nat) {
    k < |fs| && Fits(fs[k], addr, size) && forall i :: 0 <= i < k ==> !Fits(fs[i], addr, size)
  }

  /** Only the original map can lack an entry for the range. */
  lemma NoFitMeansNoSplit(es: Entries, fs: Entries, addr: nat, size: nat, splits: nat)
    requires Progress(es, fs, addr, size, splits)
    requires forall i :: 0 <= i < |fs| ==> !Fits(fs[i], addr, size)
    ensures splits == 0 && fs == es && SameTypes(es, fs) && Ordered(fs)
    ensures !HasFit(es, addr, size) && !(size == 0 && EmptyFit(es, addr))
  {
    hide Fits;
    hide SameTypes;
    hide Ordered;
    forall i ensures !Aimed(fs, addr, size, i) && !Exact(fs, addr, size, i) {
      ExactFits(fs, addr, size, i);
      assert 0 <= i < |fs| ==> !Fits(fs[i], addr, size);
    }
    forall i ensures !EndsAt(fs, addr, i) || size > 0 {
      EndFits(fs, addr, i);
      assert 0 <= i < |fs| ==> !Fits(fs[i], addr, size);
    }
  }

  lemma ExactFits(fs: Entries, addr: nat, size: nat, i: int)
    ensures Exact(fs, addr, size, i) ==> Fits(fs[i], addr, size)
  {
  }

  lemma EndFits(fs: Entries, addr: nat, i: int)
    ensures EndsAt(fs, addr, i) ==> Fits(fs[i], addr, 0)
  {
  }

  /** Where the search ends: a non-empty range never fails to split, and after
      two splits the entry is exact. */
  lemma FirstFitProgress(es: Entries, fs: Entries, addr: nat, size: nat, splits: nat, k: nat)
    requires Progress(es, fs, addr, size, splits) && FirstFit(fs, addr, size, k)
    ensures size > 0 && splits == 1 ==> Aimed(fs, addr, size, k)
    ensures splits == 2 ==> fs[k].len == size
    ensures size == 0 && splits == 1 ==> EndsAt(fs, addr, k)
    ensures size > 0 && fs[k].len != size ==>
      fs[k].addr < (if addr > fs[k].addr then addr else addr + size) < fs[k].WrappedEnd()
  {
    assert fs[k].End() <= ADDRESS_SPACE;
    if size > 0 {
      if splits == 1 {
        var i :| Aimed(fs, addr, size, i);
        FitsUnique(fs, i, k, addr, size);
      } else if splits == 2 {
        var i :| Exact(fs, addr, size, i);
        FitsUnique(fs, i, k, addr, size);
      }
    } else if splits == 1 {
      var i :| EndsAt(fs, addr, i);
      assert !(k < i);
    }
  }

  lemma EmptyFitIs(es: Entries, addr: nat, k: nat)
    requires FirstFit(es, addr, 0, k)
    ensures EmptyFit(es, addr) <==> es[k].len == 0
  {
    hide Fits;
    assert forall j: nat :: FirstFit(es, addr, 0, j) ==> j == k;
  }

  /** The entry that has the length of the range is reserved. */
  lemma ReserveDone(es: Entries, fs: Entries, addr: nat, size: nat, splits: nat, k: nat)
    requires Progress(es, fs, addr, size, splits) && FirstFit(fs, addr, size, k) && fs[k].len == size
    ensures var gs := fs[k := fs[k].(kind := RESERVED)];
      && Ordered(gs) && ReservedIn(es, gs, addr, size)
    ensures if size > 0 then HasFit(es, addr, size) else EmptyFit(es, addr)
  {
    hide HasType;
    FirstFitProgress(es, fs, addr, size, splits, k);
    ReserveKeeps(fs, k);
    if size == 0 {
      EmptyFitIs(es, addr, k);
    }
  }

  /** No split at this place: the range is empty, and so there is no success. */
  lemma SplitRefused(es: Entries, fs: Entries, addr: nat, size: nat, splits: nat, k: nat)
    requires Progress(es, fs, addr, size, splits) && FirstFit(fs, addr, size, k) && fs[k].len != size
    requires !(fs[k].addr < (if addr > fs[k].addr then addr else addr + size) < fs[k].WrappedEnd())
    ensures size == 0 && !EmptyFit(es, addr) && SameTypes(es, fs) && Ordered(fs)
  {
    hide HasType;
    FirstFitProgress(es, fs, addr, size, splits, k);
    if splits == 0 {
      EmptyFitIs(es, addr, k);
    }
  }

  lemma AtMostTwo(es: Entries, fs: Entries, addr: nat, size: nat, splits: nat, k: nat)
    requires Progress(es, fs, addr, size, splits) && FirstFit(fs, addr, size, k) && fs[k].len != size
    ensures splits < 2
  {
    FirstFitProgress(es, fs, addr, size, splits, k);
  }

  lemma NoProgress(es: Entries, addr: nat, size: nat)
    requires Ordered(es)
    ensures Progress(es, es, addr, size, 0) && SameTypes(es, es)
  {
  }

  lemma SplitProgress(es: Entries, fs: Entries, addr: nat, size: nat, splits: nat, k: nat, a: nat)
    requires Progress(es, fs, addr, size, splits) && FirstFit(fs, addr, size, k)
    requires fs[k].len != size && a == (if addr > fs[k].addr then addr else addr + size)
    requires fs[k].addr < a < fs[k].WrappedEnd()
    ensures splits < 2 && Progress(es, Split(fs, k, a), addr, size, splits + 1) && Ordered(Split(fs, k, a))
  {
    assert fs[k].End() == fs[k].WrappedEnd() < ADDRESS_SPACE;
    var gs := Split(fs, k, a);
    FirstFitProgress(es, fs, addr, size, splits, k);
    SplitKeeps(fs, k, a);
    assert gs[k] == Entry(fs[k].addr, a - fs[k].addr, AVAILABLE);
    assert gs[k + 1] == Entry(a, fs[k].End() - a, AVAILABLE);
    if size == 0 {
      EmptyFitIs(fs, addr, k);
      assert EndsAt(gs, addr, k);
    } else if addr > fs[k].addr {
      assert Aimed(gs, addr, size, k + 1);
    } else {
      assert Exact(gs, addr, size, k) && Aimed(gs, addr, size, k);
    }
    SameTypesTrans(es, fs, gs);
  }

  lemma SameTypesTrans(es: Entries, fs: Entries, gs: Entries)
    requires SameTypes(es, fs) && SameTypes(fs, gs)
    ensures SameTypes(es, gs)
  {
  }

  // --------------------------------------------------------------------------
  // The list after a reservation

  /** What an entry leaves: the range, reserved, and the parts around it. */
  function Pieces(e: Entry, addr: nat, size: nat): (ps: Entries)
    requires e.addr <= addr && addr + size <= e.End()
  {
    (if e.addr < addr then [Entry(e.addr, addr - e.addr, e.kind)] else [])
    + [Entry(addr, size, RESERVED)]
    + if addr + size < e.End() then [Entry(addr + size, e.End() - (addr + size), e.kind)] else []
  }

  /** The list once the range inside entry k is reserved. */
  function Carve(es: Entries, k: nat, addr: nat, size: nat): Entries
    requires k < |es| && es[k].addr <= addr && addr + size <= es[k].End()
  {
    es[..k] + Pieces(es[k], addr, size) + es[k + 1..]
  }

  /** The entries that the splits make of e. */
  function Parts(e: Entry, addr: nat, size: nat, splits: nat): Entries
    requires e.addr <= addr && addr + size <= e.End()
  {
    if splits == 0 then [e]
    else if splits == 1 then
      if e.addr < addr then [Entry(e.addr, addr - e.addr, e.kind), Entry(addr, e.End() - addr, e.kind)]
      else [Entry(addr, size, e.kind), Entry(addr + size, e.End() - (addr + size), e.kind)]
    else
      [Entry(e.addr, addr - e.addr, e.kind), Entry(addr, size, e.kind),
       Entry(addr + size, e.End() - (addr + size), e.kind)]
  }

  /** The parts are not empty. */
  predicate Proper(e: Entry, addr: nat, size: nat, splits: nat) {
    && (splits == 2 ==> e.addr < addr)
    && (splits == 2 || (splits == 1 && e.addr == addr) ==> addr + size < e.End())
  }

  /** The list in the middle of reserve_region: entry k is split for the range. */
  ghost predicate Splitting(es: Entries, fs: Entries, k: nat, addr: nat, size: nat, splits: nat) {
    && FirstFit(es, addr, size, k) && splits <= 2
    && Proper(es[k], addr, size, splits)
    && fs == es[..k] + Parts(es[k], addr, size, splits) + es[k + 1..]
  }

  /** Where the range is in the split list. */
  function Target(e: Entry, k: nat, addr: nat, splits: nat): nat {
    if splits > 0 && e.addr < addr then k + 1 else k
  }

  lemma TargetFits(es: Entries, fs: Entries, k: nat, addr: nat, size: nat, splits: nat, j: nat)
    requires Ordered(es) && Ordered(fs) && size > 0
    requires Splitting(es, fs, k, addr, size, splits) && FirstFit(fs, addr, size, j)
    ensures j == Target(es[k], k, addr, splits) && j - k < |Parts(es[k], addr, size, splits)|
    ensures fs[j] == Parts(es[k], addr, size, splits)[j - k]
    ensures es[k].End() == es[k].WrappedEnd()
  {
    var t := Target(es[k], k, addr, splits);
    assert es[k].End() <= ADDRESS_SPACE;
    assert fs[t] == Parts(es[k], addr, size, splits)[t - k];
    FitsUnique(fs, t, j, addr, size);
  }

  lemma SplitMiddle(left: Entries, mid: Entries, right: Entries, i: nat, a: nat)
    requires i < |mid| && mid[i].addr <= a <= mid[i].End()
    ensures (left + mid + right)[|left| + i] == mid[i]
    ensures Split(left + mid + right, |left| + i, a) == left + Split(mid, i, a) + right
  {
    var fs := left + mid + right;
    assert fs[..|left| + i] == left + mid[..i];
    assert fs[|left| + i + 1..] == mid[i + 1..] + right;
  }

  lemma PartsStep(e: Entry, addr: nat, size: nat, splits: nat, i: nat, a: nat)
    requires e.addr <= addr && addr + size <= e.End() && splits < 2 && Proper(e, addr, size, splits)
    requires i == if splits > 0 && e.addr < addr then 1 else 0
    requires var p := Parts(e, addr, size, splits)[i];
      p.len != size && a == (if addr > p.addr then addr else addr + size) && p.addr < a < p.End()
    ensures Proper(e, addr, size, splits + 1)
    ensures Split(Parts(e, addr, size, splits), i, a) == Parts(e, addr, size, splits + 1)
  {
  }

  lemma SplittingStep(es: Entries, fs: Entries, k: nat, addr: nat, size: nat, splits: nat, j: nat, a: nat)
    requires Ordered(es) && Ordered(fs) && size > 0 && splits < 2
    requires Splitting(es, fs, k, addr, size, splits) && FirstFit(fs, addr, size, j)
    requires fs[j].len != size && a == (if addr > fs[j].addr then addr else addr + size)
    requires fs[j].addr < a < fs[j].WrappedEnd()
    ensures Splitting(es, Split(fs, j, a), k, addr, size, splits + 1)
  {
    TargetFits(es, fs, k, addr, size, splits, j);
    var e := es[k];
    PartsStep(e, addr, size, splits, j - k, a);
    hide Parts;
    hide Split;
    SplitMiddle(es[..k], Parts(e, addr, size, splits), es[k + 1..], j - k, a);
  }

  lemma UpdateMiddle(left: Entries, mid: Entries, right: Entries, i: nat, e: Entry)
    requires i < |mid|
    ensures (left + mid + right)[|left| + i := e] == left + mid[i := e] + right
  {
  }

  lemma PartsDone(e: Entry, addr: nat, size: nat, splits: nat, i: nat)
    requires e.addr <= addr && addr + size <= e.End() && splits <= 2 && Proper(e, addr, size, splits)
    requires i == if splits > 0 && e.addr < addr then 1 else 0
    requires Parts(e, addr, size, splits)[i].len == size
    ensures var ps := Parts(e, addr, size, splits);
      ps[i := ps[i].(kind := RESERVED)] == Pieces(e, addr, size)
  {
  }

  lemma SplittingDone(es: Entries, fs: Entries, k: nat, addr: nat, size: nat, splits: nat, j: nat)
    requires Ordered(es) && Ordered(fs) && size > 0
    requires Splitting(es, fs, k, addr, size, splits) && FirstFit(fs, addr, size, j) && fs[j].len == size
    ensures FirstFit(es, addr, size, k) && fs[j := fs[j].(kind := RESERVED)] == Carve(es, k, addr, size)
  {
    TargetFits(es, fs, k, addr, size, splits, j);
    PartsDone(es[k], addr, size, splits, j - k);
    hide Parts;
    hide Pieces;
    UpdateMiddle(es[..k], Parts(es[k], addr, size, splits), es[k + 1..], j - k, fs[j].(kind := RESERVED));
  }

  lemma FirstFitUnique(es: Entries, addr: nat, size: nat, j: nat, k: nat)
    requires FirstFit(es, addr, size, j) && FirstFit(es, addr, size, k)
    ensures j == k
  {
    hide Fits;
    assert !(j < k) && !(k < j);
  }

  /** The entries of the carved list: the old ones but entry k, and its pieces. */
  lemma CarveEntries(es: Entries, k: nat, addr: nat, size: nat)
    requires k < |es| && es[k].addr <= addr && addr + size <= es[k].End()
    ensures var fs, ps := Carve(es, k, addr, size), Pieces(es[k], addr, size);
      && |fs| == |es| + |ps| - 1
      && (forall i :: 0 <= i < k ==> fs[i] == es[i])
      && (forall i :: k < i < |es| ==> fs[i + |ps| - 1] == es[i])
      && (forall i :: 0 <= i < |ps| ==> fs[k + i] == ps[i])
  {
  }

  /** Which ranges still find a place after a reservation. */
  lemma CarveFit(es: Entries, k: nat, addr: nat, size: nat, a: nat, n: nat)
    requires Ordered(es) && k < |es| && Fits(es[k], addr, size) && size > 0 && n > 0
    ensures HasFit(Carve(es, k, addr, size), a, n) <==>
            HasFit(es, a, n) && (a + n <= addr || addr + size <= a)
  {
    if HasFit(Carve(es, k, addr, size), a, n) {
      FitBefore(es, k, addr, size, a, n);
    }
    if HasFit(es, a, n) && (a + n <= addr || addr + size <= a) {
      FitAfter(es, k, addr, size, a, n);
    }
  }

  lemma FitBefore(es: Entries, k: nat, addr: nat, size: nat, a: nat, n: nat)
    requires Ordered(es) && k < |es| && Fits(es[k], addr, size) && size > 0 && n > 0
    requires HasFit(Carve(es, k, addr, size), a, n)
    ensures HasFit(es, a, n) && (a + n <= addr || addr + size <= a)
  {
    hide Carve;
    var fs, ps, e := Carve(es, k, addr, size), Pieces(es[k], addr, size), es[k];
    CarveEntries(es, k, addr, size);
    assert e.End() <= ADDRESS_SPACE;
    var i :| 0 <= i < |fs| && Fits(fs[i], a, n);
    if k <= i < k + |ps| {
      assert fs[i] == ps[i - k] && Fits(e, a, n);
    } else {
      var o := if i < k then i else i + 1 - |ps|;
      assert fs[i] == es[o] && es[o].End() <= ADDRESS_SPACE;
    }
  }

  lemma FitAfter(es: Entries, k: nat, addr: nat, size: nat, a: nat, n: nat)
    requires Ordered(es) && k < |es| && Fits(es[k], addr, size) && size > 0 && n > 0
    requires HasFit(es, a, n) && (a + n <= addr || addr + size <= a)
    ensures HasFit(Carve(es, k, addr, size), a, n)
  {
    hide Carve;
    var fs, ps, e := Carve(es, k, addr, size), Pieces(es[k], addr, size), es[k];
    CarveEntries(es, k, addr, size);
    var o :| 0 <= o < |es| && Fits(es[o], a, n);
    assert es[o].End() <= ADDRESS_SPACE;
    if o != k {
      assert fs[if o < k then o else o + |ps| - 1] == es[o];
    } else if a + n <= addr {
      assert ps[0] == Entry(e.addr, addr - e.addr, e.kind) && Fits(fs[k], a, n);
    } else {
      assert ps[|ps| - 1] == Entry(addr + size, e.End() - (addr + size), e.kind);
      assert Fits(fs[k + (|ps| - 1)], a, n);
    }
  }
}
