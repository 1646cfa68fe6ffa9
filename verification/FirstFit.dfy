/** What first fit does to the page maps, as functions: which run is taken, and
    what mapping a set of pages costs in frames for page tables. */
module FirstFit {
  import opened Pagemap
  import opened PageTables

  /** Number of free pages of a map. */
  function FreePages(s: Pages): (n: nat)
    ensures n <= |s|
  {
    if s == [] then 0 else FreePages(s[..|s| - 1]) + if s[|s| - 1].Free? then 1 else 0
  }

  function FreeIn(maps: seq<Pages>): nat {
    if maps == [] then 0 else FreeIn(maps[..|maps| - 1]) + FreePages(maps[|maps| - 1])
  }

  /** t is s with n free pages, from i on, not free any more. */
  lemma {:induction false} FreePagesTaken(s: Pages, t: Pages, i: nat, n: nat)
    requires |s| == |t| && FreeRun(s, i, n)
    requires forall k :: 0 <= k < |s| ==> if i <= k < i + n then !t[k].Free? else t[k] == s[k]
    ensures FreePages(t) + n == FreePages(s)
    decreases |s|
  {
    if n == 0 {
      assert s == t;
    } else if i + n == |s| {
      FreePagesTaken(s[..|s| - 1], t[..|s| - 1], i, n - 1);
    } else {
      FreePagesTaken(s[..|s| - 1], t[..|s| - 1], i, n);
    }
  }

  lemma FreePagesMark(s: Pages, i: nat, n: nat)
    requires FreeRun(s, i, n)
    ensures FreePages(Mark(s, i, n)) + n == FreePages(s)
  {
    FreePagesTaken(s, Mark(s, i, n), i, n);
  }

  lemma {:induction false} NoneFree(s: Pages)
    ensures FreePages(s) == 0 <==> forall k :: 0 <= k < |s| ==> !s[k].Free?
  {
    if s != [] {
      NoneFree(s[..|s| - 1]);
    }
  }

  lemma NoRunOfOne(s: Pages)
    ensures NoRun(s, 1) <==> FreePages(s) == 0
  {
    NoneFree(s);
    forall k | 0 <= k < |s| ensures s[k].Free? <==> FreeRun(s, k, 1) {}
  }

  /** A page is left exactly when some map has a free one. */
  lemma {:induction false} NothingFree(maps: seq<Pages>)
    ensures FreeIn(maps) == 0 <==> NoFreeRun(maps, 1)
  {
    hide NoRun;
    if maps != [] {
      var n := |maps| - 1;
      NothingFree(maps[..n]);
      NoRunOfOne(maps[n]);
      assert forall k :: 0 <= k < n ==> maps[..n][k] == maps[k];
    }
  }

  lemma {:induction false} FreeInUpdate(maps: seq<Pages>, r: nat, t: Pages)
    requires r < |maps|
    ensures FreeIn(maps[r := t]) == FreeIn(maps) - FreePages(maps[r]) + FreePages(t)
  {
    var n := |maps| - 1;
    if r == n {
      assert maps[r := t][..n] == maps[..n];
    } else {
      assert maps[r := t][..n] == maps[..n][r := t];
      FreeInUpdate(maps[..n], r, t);
    }
  }

  // --------------------------------------------------------------------------
  // Taking runs

  lemma {:induction false} LowestRun(s: Pages, n: nat, j: nat) returns (i: nat)
    requires FreeRun(s, j, n)
    ensures IsFirstFit(s, n, i)
    decreases j
  {
    if k :| 0 <= k < j && FreeRun(s, k, n) {
      i := LowestRun(s, n, k);
    } else {
      i := j;
    }
  }

  lemma {:induction false} FirstRunExists(maps: seq<Pages>, n: nat)
    requires !NoFreeRun(maps, n)
    ensures exists r: nat, i: nat :: FirstRun(maps, r, i, n)
  {
    var m := |maps| - 1;
    assert forall k :: 0 <= k < m ==> maps[..m][k] == maps[k];
    if NoFreeRun(maps[..m], n) {
      var j :| FreeRun(maps[m], j, n);
      var i := LowestRun(maps[m], n, j);
      assert FirstRun(maps, m, i, n);
    } else {
      FirstRunExists(maps[..m], n);
      var r: nat, i: nat :| FirstRun(maps[..m], r, i, n);
      assert maps[..m][..r] == maps[..r];
      assert FirstRun(maps, r, i, n);
    }
  }

  /** Where pfa_alloc finds n pages: map and index. */
  ghost function First(maps: seq<Pages>, n: nat): (at: (nat, nat))
    requires !NoFreeRun(maps, n)
    ensures FirstRun(maps, at.0, at.1, n) && at.1 + n <= |maps[at.0]|
  {
    FirstRunExists(maps, n);
    var r: nat, i: nat :| FirstRun(maps, r, i, n);
    (r, i)
  }

  lemma FirstIs(maps: seq<Pages>, r: nat, i: nat, n: nat)
    requires FirstRun(maps, r, i, n)
    ensures !NoFreeRun(maps, n) && First(maps, n) == (r, i)
  {
    FirstFitIsRun(maps[r], n, i);
    FirstRunUnique(maps, r, i, First(maps, n).0, First(maps, n).1, n);
  }

  ghost function Take(maps: seq<Pages>, n: nat): (now: seq<Pages>)
    requires !NoFreeRun(maps, n)
    ensures |now| == |maps|
  {
    var at := First(maps, n);
    maps[at.0 := Mark(maps[at.0], at.1, n)]
  }

  lemma TakeFree(maps: seq<Pages>, n: nat)
    requires !NoFreeRun(maps, n)
    ensures FreeIn(Take(maps, n)) + n == FreeIn(maps)
  {
    var at := First(maps, n);
    FirstFitIsRun(maps[at.0], n, at.1);
    FreePagesMark(maps[at.0], at.1, n);
    FreeInUpdate(maps, at.0, Mark(maps[at.0], at.1, n));
  }

  /** k single pages, one after the other. */
  ghost function TakeEach(maps: seq<Pages>, k: nat): (now: seq<Pages>)
    requires k <= FreeIn(maps)
    decreases k
  {
    if k == 0 then maps
    else
      NothingFree(maps);
      TakeFree(maps, 1);
      TakeEach(Take(maps, 1), k - 1)
  }

  lemma {:induction false} TakeEachFree(maps: seq<Pages>, k: nat)
    requires k <= FreeIn(maps)
    ensures FreeIn(TakeEach(maps, k)) + k == FreeIn(maps)
    decreases k
  {
    if k > 0 {
      NothingFree(maps);
      TakeFree(maps, 1);
      TakeEachFree(Take(maps, 1), k - 1);
    }
  }

  lemma {:induction false} TakeEachMore(maps: seq<Pages>, a: nat, b: nat)
    requires a + b <= FreeIn(maps)
    ensures b <= FreeIn(TakeEach(maps, a)) && TakeEach(TakeEach(maps, a), b) == TakeEach(maps, a + b)
    decreases a
  {
    TakeEachFree(maps, a);
    if a > 0 {
      NothingFree(maps);
      TakeFree(maps, 1);
      TakeEachMore(Take(maps, 1), a - 1, b);
    }
  }

  // --------------------------------------------------------------------------
  // What mapping costs

  ghost function PageRange(h: int, n: nat): (r: set<int>)
    ensures forall p :: p in r <==> h <= p < h + n
    ensures |r| == n
  {
    if n == 0 then {} else PageRange(h, n - 1) + {h + n - 1}
  }

  /** The directory slots of the pages. */
  function SlotsOf(pages: set<int>): set<int> {
    set p | p in pages :: p / NB_SLOTS
  }

  /** There is a frame for each page table that the pages lack. */
  ghost predicate Mappable(maps: seq<Pages>, tables: set<int>, pages: set<int>) {
    |SlotsOf(pages) - tables| <= FreeIn(maps)
  }

  /** The page maps once the pages are mapped. */
  ghost function MapsAfter(maps: seq<Pages>, tables: set<int>, pages: set<int>): seq<Pages>
    requires Mappable(maps, tables, pages)
  {
    TakeEach(maps, |SlotsOf(pages) - tables|)
  }

  lemma Subset(s: set<int>, t: set<int>)
    requires s <= t
    ensures |s| <= |t|
  {
    assert t == s + (t - s);
  }

  lemma FewerPages(maps: seq<Pages>, tables: set<int>, some: set<int>, pages: set<int>)
    requires some <= pages && Mappable(maps, tables, pages)
    ensures Mappable(maps, tables, some)
  {
    assert some + pages == pages;
    SlotsJoin(some, pages);
    Subset(SlotsOf(some) - tables, SlotsOf(pages) - tables);
  }

  /** Mapping some pages and then more is mapping them together. */
  lemma MorePages(maps: seq<Pages>, tables: set<int>, pages: set<int>, more: set<int>)
    requires Mappable(maps, tables, pages)
    ensures tables + SlotsOf(pages + more) == tables + SlotsOf(pages) + SlotsOf(more)
    ensures Mappable(MapsAfter(maps, tables, pages), tables + SlotsOf(pages), more) <==>
            Mappable(maps, tables, pages + more)
    ensures Mappable(maps, tables, pages + more) ==>
      MapsAfter(MapsAfter(maps, tables, pages), tables + SlotsOf(pages), more) == MapsAfter(maps, tables, pages + more)
  {
    SlotsJoin(pages, more);
    SlotsCost(tables, pages, more);
    hide SlotsOf;
    var a, b := |SlotsOf(pages) - tables|, |SlotsOf(more) - (tables + SlotsOf(pages))|;
    TakeEachFree(maps, a);
    if a + b <= FreeIn(maps) {
      TakeEachMore(maps, a, b);
    }
  }

  lemma SlotsJoin(a: set<int>, b: set<int>)
    ensures SlotsOf(a + b) == SlotsOf(a) + SlotsOf(b)
  {
  }

  /** The slots without a table are counted once. */
  lemma SlotsCost(tables: set<int>, a: set<int>, b: set<int>)
    ensures |SlotsOf(a + b) - tables| == |SlotsOf(a) - tables| + |SlotsOf(b) - (tables + SlotsOf(a))|
  {
    SlotsJoin(a, b);
    hide SlotsOf;
    var some, more := SlotsOf(a) - tables, SlotsOf(b) - (tables + SlotsOf(a));
    assert SlotsOf(a + b) - tables == some + more;
  }

  lemma NothingToMap(maps: seq<Pages>, tables: set<int>)
    ensures Mappable(maps, tables, {}) && MapsAfter(maps, tables, {}) == maps && SlotsOf({}) == {}
  {
    assert SlotsOf({}) - tables == {};
  }

  /** One page costs a frame exactly when its slot has no table. */
  lemma OnePage(maps: seq<Pages>, tables: set<int>, p: int)
    ensures SlotsOf({p}) == {p / NB_SLOTS}
    ensures Mappable(maps, tables, {p}) <==> p / NB_SLOTS in tables || !NoFreeRun(maps, 1)
    ensures Mappable(maps, tables, {p}) ==>
      MapsAfter(maps, tables, {p}) == if p / NB_SLOTS in tables then maps else Take(maps, 1)
  {
    NothingFree(maps);
    assert SlotsOf({p}) == {p / NB_SLOTS};
    if p / NB_SLOTS in tables {
      assert SlotsOf({p}) - tables == {};
    } else {
      assert SlotsOf({p}) - tables == {p / NB_SLOTS};
      if FreeIn(maps) > 0 {
        TakeFree(maps, 1);
        assert TakeEach(Take(maps, 1), 0) == Take(maps, 1);
      }
    }
  }
}
