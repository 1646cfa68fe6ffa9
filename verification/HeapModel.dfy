/** The state of the fine-grained heap as a value, what holds of it after every
    call, and what each step does to it (kernel/mem/kmalloc.c). */
module HeapModel {
  import opened Memory

  const META_SIZE: nat := 16  // sizeof(struct aha_big_meta)

  // A block: its page number, where its chunks begin (the header and the chunk
  // map come before), its chunk size and the addresses of its used chunks.
  datatype BlockView = BlockView(page: int, first: int, eltSize: nat, used: set<int>)

  // struct aha_big_meta, with the address of the structure itself.
  datatype Big = Big(size: nat, ptr: nat, meta: nat) {
    ghost predicate Covers(p: int) {
      ptr / PAGE_SIZE <= p < ptr / PAGE_SIZE + size / PAGE_SIZE
    }
  }

  // groups: the page groups handed out by the frame allocator; owned: the
  // frames of the page tables; live: the addresses handed out to callers and
  // the sizes they asked for.
  datatype State = State(blocks: seq<BlockView>, bigs: seq<Big>, live: map<int, nat>,
                         groups: map<int, nat>, owned: set<int>)

  ghost predicate GroupsApart(groups: map<int, nat>) {
    && (forall p :: p in groups ==> groups[p] >= 1 && p > 0)
    && (forall p, q :: p in groups && q in groups && p < q ==> p + groups[p] <= q)
  }

  predicate BlockOk(s: State, b: BlockView) {
    && 8 <= b.eltSize <= 2048
    && b.page in s.groups && s.groups[b.page] == 1 && b.page !in s.owned
    && b.page * PAGE_SIZE < b.first <= b.page * PAGE_SIZE + PAGE_SIZE
    && (forall p :: p in b.used ==> b.first <= p && p + b.eltSize <= b.page * PAGE_SIZE + PAGE_SIZE)
    && (forall p, q :: p in b.used && q in b.used && p < q ==> p + b.eltSize <= q)
  }

  predicate BigOk(s: State, g: Big) {
    && Aligned(g.ptr) && Aligned(g.size) && g.size > 0
    && PageOf(g.ptr) in s.groups && s.groups[PageOf(g.ptr)] == PageOf(g.size) && PageOf(g.ptr) !in s.owned
  }

  /** Blocks and big allocations are distinct page groups, none of them a page table. */
  ghost predicate Layout(s: State) {
    && (forall i :: 0 <= i < |s.blocks| ==> BlockOk(s, s.blocks[i]))
    && (forall i, j :: 0 <= i < j < |s.blocks| ==> s.blocks[i].page != s.blocks[j].page)
    && (forall i :: 0 <= i < |s.bigs| ==> BigOk(s, s.bigs[i]))
    && (forall i, j :: 0 <= i < j < |s.bigs| ==>
          s.bigs[i].ptr != s.bigs[j].ptr && s.bigs[i].meta != s.bigs[j].meta)
    && (forall i, j :: 0 <= i < |s.blocks| && 0 <= j < |s.bigs| ==> s.blocks[i].page != PageOf(s.bigs[j].ptr))
  }

  ghost predicate IsChunk(s: State, i: int, p: int) {
    0 <= i < |s.blocks| && p in s.blocks[i].used
  }

  ghost predicate IsMeta(s: State, j: int, p: int) {
    0 <= j < |s.bigs| && s.bigs[j].meta == p
  }

  ghost predicate IsBig(s: State, j: int, p: int) {
    0 <= j < |s.bigs| && s.bigs[j].ptr == p
  }

  /** Every used chunk belongs to a caller or holds the metadata of one big
      allocation, and every live address is a used chunk or a big allocation. */
  ghost predicate Ownership(s: State) {
    ChunkOwners(s) && LiveOwners(s)
  }

  /** A used chunk belongs to a caller or is the metadata of a big allocation. */
  ghost predicate ChunkOwners(s: State) {
    && (forall i, p :: IsChunk(s, i, p) ==>
          (p in s.live && s.live[p] <= s.blocks[i].eltSize) || exists j :: IsMeta(s, j, p))
    && (forall j, p :: IsMeta(s, j, p) ==>
          p !in s.live && exists i :: IsChunk(s, i, p) && s.blocks[i].eltSize == META_SIZE)
  }

  /** What a caller holds is a used chunk or a big allocation. */
  ghost predicate LiveOwners(s: State) {
    && (forall p :: p in s.live ==> (exists i :: IsChunk(s, i, p)) || (exists j :: IsBig(s, j, p)))
    && (forall j, p :: IsBig(s, j, p) ==> p in s.live && s.live[p] <= s.bigs[j].size)
  }

  ghost predicate Inv(s: State) {
    GroupsApart(s.groups) && Layout(s) && Ownership(s)
  }

  /** Page p holds a block or part of a big allocation. */
  ghost predicate InUse(blocks: seq<BlockView>, bigs: seq<Big>, p: int) {
    || (exists i :: 0 <= i < |blocks| && blocks[i].page == p)
    || (exists j :: 0 <= j < |bigs| && bigs[j].Covers(p))
  }

  // --------------------------------------------------------------------------
  // What the invariant says about pointers

  /** A chunk pointer determines its block. */
  lemma ChunkBlockUnique(s: State, i: int, j: int, p: int)
    requires Layout(s) && IsChunk(s, i, p) && IsChunk(s, j, p)
    ensures i == j
  {
    assert BlockOk(s, s.blocks[i]) && BlockOk(s, s.blocks[j]);
    assert s.blocks[i].page == s.blocks[j].page;
  }

  /** No pointer is both a chunk and a big allocation. */
  lemma ChunkIsNotBig(s: State, i: int, p: int)
    requires Layout(s) && GroupsApart(s.groups) && IsChunk(s, i, p)
    ensures forall j :: !IsBig(s, j, p)
  {
    forall j | 0 <= j < |s.bigs|
      ensures s.bigs[j].ptr != p
    {
      assert BlockOk(s, s.blocks[i]);
      assert s.blocks[i].page == p / PAGE_SIZE;
    }
  }

  /** Each live pointer has exactly one owner: one used chunk or one big allocation. */
  lemma UniqueOwner(s: State, p: int)
    requires Inv(s) && p in s.live
    ensures (exists i :: IsChunk(s, i, p)) <==> !(exists j :: IsBig(s, j, p))
    ensures forall i, k :: IsChunk(s, i, p) && IsChunk(s, k, p) ==> i == k
    ensures forall j, k :: IsBig(s, j, p) && IsBig(s, k, p) ==> j == k
    ensures !exists j :: IsMeta(s, j, p)
  {
    forall i, k | IsChunk(s, i, p) && IsChunk(s, k, p)
      ensures i == k
    {
      ChunkBlockUnique(s, i, k, p);
    }
    forall i | IsChunk(s, i, p)
      ensures forall j :: !IsBig(s, j, p)
    {
      ChunkIsNotBig(s, i, p);
    }
  }

  /** The search of kfree: an address inside the chunk area of a block is a used
      chunk of that block exactly when it is live or metadata, and it is never a
      big allocation. */
  lemma FoundInBlock(s: State, i: int, p: int)
    requires Inv(s) && 0 <= i < |s.blocks| && s.blocks[i].first <= p < s.blocks[i].page * PAGE_SIZE + PAGE_SIZE
    ensures IsChunk(s, i, p) <==> p in s.live || exists j :: IsMeta(s, j, p)
    ensures forall j :: !IsBig(s, j, p)
  {
    assert BlockOk(s, s.blocks[i]);
    forall k | 0 <= k < |s.blocks| && k != i ensures p !in s.blocks[k].used { assert BlockOk(s, s.blocks[k]); }
    forall j | 0 <= j < |s.bigs| ensures s.bigs[j].ptr != p { assert p / PAGE_SIZE == s.blocks[i].page; }
    assert IsChunk(s, i, p) <==> p in s.blocks[i].used;
  }

  /** An address in no chunk area that is no big allocation is neither live nor metadata. */
  lemma FoundNowhere(s: State, p: int)
    requires Inv(s)
    requires forall i :: 0 <= i < |s.blocks| ==> !(s.blocks[i].first <= p < s.blocks[i].page * PAGE_SIZE + PAGE_SIZE)
    requires forall j :: !IsBig(s, j, p)
    ensures p !in s.live && forall j :: !IsMeta(s, j, p)
  {
    forall i | 0 <= i < |s.blocks| ensures p !in s.blocks[i].used { assert BlockOk(s, s.blocks[i]); }
  }

  /** Address zero is never handed out. */
  lemma NullNotLive(s: State)
    requires Inv(s)
    ensures 0 !in s.live && forall j :: !IsBig(s, j, 0) && !IsMeta(s, j, 0)
  {
    forall i | 0 <= i < |s.blocks| ensures 0 !in s.blocks[i].used { assert BlockOk(s, s.blocks[i]); }
    forall j | 0 <= j < |s.bigs| ensures s.bigs[j].ptr != 0 { assert BigOk(s, s.bigs[j]); }
  }

  lemma BigUnique(s: State, j: nat)
    requires Layout(s) && j < |s.bigs|
    ensures IsBig(s, j, s.bigs[j].ptr) && forall k :: IsBig(s, k, s.bigs[j].ptr) ==> k == j
  {
  }

  /** Bytes set aside for the owner of address p. */
  ghost predicate Extent(s: State, p: int, n: nat) {
    || (exists i :: IsChunk(s, i, p) && s.blocks[i].eltSize == n)
    || (exists j :: IsBig(s, j, p) && s.bigs[j].size == n)
  }

  /** The memory of an owner lies inside one page group that is not a page table. */
  ghost predicate Within(s: State, h: int, p: int, n: nat) {
    h in s.groups && h !in s.owned && h * PAGE_SIZE <= p && p + n <= (h + s.groups[h]) * PAGE_SIZE
  }

  lemma ExtentWithin(s: State, p: int, n: nat) returns (h: int)
    requires Inv(s) && Extent(s, p, n)
    ensures Within(s, h, p, n)
    ensures (exists i :: IsChunk(s, i, p) && s.blocks[i].page == h && s.blocks[i].eltSize == n)
         || (exists j :: IsBig(s, j, p) && PageOf(s.bigs[j].ptr) == h && s.bigs[j].size == n)
  {
    if i :| IsChunk(s, i, p) && s.blocks[i].eltSize == n {
      assert BlockOk(s, s.blocks[i]);
      h := s.blocks[i].page;
    } else {
      var j :| IsBig(s, j, p) && s.bigs[j].size == n;
      assert BigOk(s, s.bigs[j]);
      h := PageOf(p);
    }
  }

  /** The extents of two different owners do not meet. */
  lemma ExtentsApart(s: State, p: int, m: nat, q: int, n: nat)
    requires Inv(s) && Extent(s, p, m) && Extent(s, q, n) && p < q
    ensures p + m <= q
  {
    var h := ExtentWithin(s, p, m);
    var k := ExtentWithin(s, q, n);
    if h == k {
      SameGroup(s, h, p, m, q, n);
    }
  }

  lemma SameGroup(s: State, h: int, p: int, m: nat, q: int, n: nat)
    requires Layout(s) && p < q
    requires (exists i :: IsChunk(s, i, p) && s.blocks[i].page == h && s.blocks[i].eltSize == m)
          || (exists j :: IsBig(s, j, p) && PageOf(s.bigs[j].ptr) == h && s.bigs[j].size == m)
    requires (exists i :: IsChunk(s, i, q) && s.blocks[i].page == h && s.blocks[i].eltSize == n)
          || (exists j :: IsBig(s, j, q) && PageOf(s.bigs[j].ptr) == h && s.bigs[j].size == n)
    ensures p + m <= q
  {
    if i :| IsChunk(s, i, p) && s.blocks[i].page == h && s.blocks[i].eltSize == m {
      assert BlockOk(s, s.blocks[i]);
    }
  }

  lemma HeaderApart(s: State, h: int, p: int, n: nat, i: int)
    requires Inv(s) && Within(s, h, p, n) && 0 <= i < |s.blocks|
    requires (exists k :: IsChunk(s, k, p) && s.blocks[k].page == h)
          || (exists j :: IsBig(s, j, p) && PageOf(s.bigs[j].ptr) == h)
    ensures p + n <= s.blocks[i].page * PAGE_SIZE || s.blocks[i].first <= p
  {
    assert BlockOk(s, s.blocks[i]);
    if h == s.blocks[i].page {
      forall j: int
        ensures !(IsBig(s, j, p) && PageOf(s.bigs[j].ptr) == h)
      {
      }
      var k :| IsChunk(s, k, p) && s.blocks[k].page == h;
      assert k == i;
    }
  }

  /** Main result on pointers: each live allocation has at least the bytes it
      asked for, shared with no other allocation, no metadata, no block header
      or chunk map, and no page table. */
  lemma LiveMemory(s: State, p: int) returns (n: nat)
    requires Inv(s) && p in s.live
    ensures s.live[p] <= n && Extent(s, p, n)
    ensures forall q: int, m: nat :: q != p && Extent(s, q, m) ==> p + n <= q || q + m <= p
    ensures forall i :: 0 <= i < |s.blocks| ==> p + n <= s.blocks[i].page * PAGE_SIZE || s.blocks[i].first <= p
    ensures forall f :: f in s.owned && f in s.groups ==>
      p + n <= f * PAGE_SIZE || (f + s.groups[f]) * PAGE_SIZE <= p
  {
    if i :| IsChunk(s, i, p) {
      n := s.blocks[i].eltSize;
    } else {
      var j :| IsBig(s, j, p);
      n := s.bigs[j].size;
    }
    hide Layout;
    forall q: int, m: nat | q != p && Extent(s, q, m)
      ensures p + n <= q || q + m <= p
    {
      if p < q { ExtentsApart(s, p, n, q, m); } else { ExtentsApart(s, q, m, p, n); }
    }
    var h := ExtentWithin(s, p, n);
    hide Extent;
    forall i | 0 <= i < |s.blocks|
      ensures p + n <= s.blocks[i].page * PAGE_SIZE || s.blocks[i].first <= p
    {
      HeaderApart(s, h, p, n, i);
    }
    TablesApart(s, h, p, n);
  }

  lemma TablesApart(s: State, h: int, p: int, n: nat)
    requires GroupsApart(s.groups) && Within(s, h, p, n)
    ensures forall f :: f in s.owned && f in s.groups ==>
      p + n <= f * PAGE_SIZE || (f + s.groups[f]) * PAGE_SIZE <= p
  {
    forall f | f in s.owned && f in s.groups
      ensures p + n <= f * PAGE_SIZE || (f + s.groups[f]) * PAGE_SIZE <= p
    {
      assert h < f || f < h;
    }
  }

  // --------------------------------------------------------------------------
  // The steps of the allocator keep the invariant

  ghost predicate Unused(s: State, h: int) {
    && (forall i :: 0 <= i < |s.blocks| ==> s.blocks[i].page != h)
    && (forall j :: 0 <= j < |s.bigs| ==> PageOf(s.bigs[j].ptr) != h)
  }

  /** A page group that the frame allocator did not have before is unused. */
  lemma NewGroupUnused(s: State, h: int)
    requires Layout(s) && h !in s.groups
    ensures Unused(s, h)
  {
    forall i | 0 <= i < |s.blocks| ensures s.blocks[i].page != h { assert BlockOk(s, s.blocks[i]); }
    forall j | 0 <= j < |s.bigs| ensures PageOf(s.bigs[j].ptr) != h { assert BigOk(s, s.bigs[j]); }
  }

  /** Ownership depends on blocks, big allocations and live addresses only. */
  lemma SameOwnership(s: State, t: State)
    requires Ownership(s) && s.blocks == t.blocks && s.bigs == t.bigs && s.live == t.live
    ensures Ownership(t)
  {
    assert forall i, p :: IsChunk(s, i, p) <==> IsChunk(t, i, p);
    assert forall j, p :: IsMeta(s, j, p) <==> IsMeta(t, j, p);
    assert forall j, p :: IsBig(s, j, p) <==> IsBig(t, j, p);
  }

  /** The frame allocator may hand out and take back groups, and the page tables
      may take frames, as long as the groups of the heap stay. */
  lemma GroupsStep(s: State, groups: map<int, nat>, owned: set<int>)
    requires Inv(s) && GroupsApart(groups)
    requires forall h :: h in s.groups && !Unused(s, h) ==> h in groups && groups[h] == s.groups[h]
    requires forall h :: h in owned ==> h in s.owned || Unused(s, h)
    ensures Inv(s.(groups := groups, owned := owned))
  {
    var t := s.(groups := groups, owned := owned);
    forall i | 0 <= i < |s.blocks| ensures BlockOk(t, s.blocks[i]) {
      assert BlockOk(s, s.blocks[i]);
      assert !Unused(s, s.blocks[i].page);
    }
    forall j | 0 <= j < |s.bigs| ensures BigOk(t, s.bigs[j]) {
      assert BigOk(s, s.bigs[j]);
      assert !Unused(s, PageOf(s.bigs[j].ptr));
    }
    SameOwnership(s, t);
  }

  /** list_add puts the new block in front. */
  function AddBlock(s: State, b: BlockView): State {
    s.(blocks := [b] + s.blocks)
  }

  lemma AddBlockLayout(s: State, b: BlockView)
    requires Layout(s) && BlockOk(s, b) && Unused(s, b.page)
    ensures Layout(AddBlock(s, b))
  {
    var t := AddBlock(s, b);
    forall i | 0 <= i < |t.blocks| ensures BlockOk(t, t.blocks[i]) {
      if i > 0 { assert BlockOk(s, s.blocks[i - 1]); }
    }
    forall j | 0 <= j < |t.bigs| ensures BigOk(t, t.bigs[j]) { assert BigOk(s, s.bigs[j]); }
  }

  lemma AddBlockStep(s: State, b: BlockView)
    requires Inv(s) && BlockOk(s, b) && b.used == {} && Unused(s, b.page)
    ensures Inv(AddBlock(s, b))
  {
    hide BlockOk;
    hide BigOk;
    var t := AddBlock(s, b);
    AddBlockLayout(s, b);
    assert forall i, p :: IsChunk(t, i, p) ==> IsChunk(s, i - 1, p);
    assert forall i, p :: IsChunk(s, i, p) ==> IsChunk(t, i + 1, p) && t.blocks[i + 1] == s.blocks[i];
    assert forall j, p :: IsMeta(s, j, p) <==> IsMeta(t, j, p);
    assert forall j, p :: IsBig(s, j, p) <==> IsBig(t, j, p);
    assert Ownership(t) by {
      hide Layout;
    }
  }

  function TakeChunk(s: State, i: nat, p: int, size: nat): State
    requires i < |s.blocks|
  {
    s.(blocks := s.blocks[i := s.blocks[i].(used := s.blocks[i].used + {p})], live := s.live[p := size])
  }

  /** The address of a free chunk is not live. */
  lemma FreeChunkNotLive(s: State, i: nat, p: int)
    requires Inv(s) && i < |s.blocks| && p !in s.blocks[i].used
    requires s.blocks[i].first <= p < s.blocks[i].page * PAGE_SIZE + PAGE_SIZE
    ensures p !in s.live
  {
    assert BlockOk(s, s.blocks[i]);
    forall k | 0 <= k < |s.blocks| ensures p !in s.blocks[k].used { assert BlockOk(s, s.blocks[k]); }
    forall j | 0 <= j < |s.bigs| ensures s.bigs[j].ptr != p { assert p / PAGE_SIZE == s.blocks[i].page; }
  }

  lemma TakeChunkStep(s: State, i: nat, p: int, size: nat)
    requires Inv(s) && i < |s.blocks| && p !in s.blocks[i].used && size <= s.blocks[i].eltSize
    requires BlockOk(s, s.blocks[i].(used := s.blocks[i].used + {p}))
    ensures p !in s.live && Inv(TakeChunk(s, i, p, size))
  {
    var t := TakeChunk(s, i, p, size);
    assert p in t.blocks[i].used;
    FreeChunkNotLive(s, i, p);
    forall k | 0 <= k < |t.blocks| ensures BlockOk(t, t.blocks[k]) { assert BlockOk(s, s.blocks[k]); }
    forall j | 0 <= j < |t.bigs| ensures BigOk(t, t.bigs[j]) { assert BigOk(s, s.bigs[j]); }
    TakeChunkOwnership(s, i, p, size);
  }

  lemma TakeChunkOwnership(s: State, i: nat, p: int, size: nat)
    requires Ownership(s) && i < |s.blocks| && p !in s.blocks[i].used && size <= s.blocks[i].eltSize
    requires p !in s.live && Layout(TakeChunk(s, i, p, size))
    ensures Ownership(TakeChunk(s, i, p, size))
  {
    hide BlockOk;
    hide BigOk;
    var t := TakeChunk(s, i, p, size);
    assert IsChunk(t, i, p);
    ChunkBlockIs(t, i, p);
    assert forall k, q :: IsChunk(t, k, q) && q != p ==> IsChunk(s, k, q);
    assert forall k, q :: IsChunk(s, k, q) ==> IsChunk(t, k, q) && t.blocks[k].eltSize == s.blocks[k].eltSize;
    assert forall j, q :: IsMeta(s, j, q) <==> IsMeta(t, j, q);
    assert forall j, q :: IsBig(s, j, q) <==> IsBig(t, j, q);
    assert forall j :: !IsMeta(s, j, p);
  }

  lemma ChunkBlockIs(t: State, i: nat, p: int)
    requires Layout(t) && IsChunk(t, i, p)
    ensures forall k :: IsChunk(t, k, p) ==> k == i
  {
    forall k | IsChunk(t, k, p) ensures k == i { ChunkBlockUnique(t, k, i, p); }
  }

  function GiveChunk(s: State, i: nat, p: int): State
    requires i < |s.blocks|
  {
    s.(blocks := s.blocks[i := s.blocks[i].(used := s.blocks[i].used - {p})], live := s.live - {p})
  }

  lemma GiveChunkStep(s: State, i: nat, p: int)
    requires Inv(s) && IsChunk(s, i, p) && p in s.live
    ensures Inv(GiveChunk(s, i, p))
  {
    var t := GiveChunk(s, i, p);
    forall k | 0 <= k < |t.blocks| ensures BlockOk(t, t.blocks[k]) { assert BlockOk(s, s.blocks[k]); }
    forall j | 0 <= j < |t.bigs| ensures BigOk(t, t.bigs[j]) { assert BigOk(s, s.bigs[j]); }
    GiveChunkOwnership(s, i, p);
  }

  /** Giving back the chunk of some metadata, which kfree does without a panic,
      leaves a big allocation whose metadata is free memory. */
  lemma FreedMetaBreaks(s: State, i: nat, j: int, p: int)
    requires Inv(s) && IsChunk(s, i, p) && IsMeta(s, j, p)
    ensures p !in s.live && !Inv(GiveChunk(s, i, p))
  {
    ChunkBlockIs(s, i, p);
    var t := GiveChunk(s, i, p);
    assert IsMeta(t, j, p);
    forall k ensures !IsChunk(t, k, p) { assert IsChunk(t, k, p) ==> IsChunk(s, k, p); }
  }

  /** Such a state: one block of 16-byte chunks at page 512, whose first chunk is
      the metadata of an allocation of one page. */
  lemma MetadataExample() returns (s: State, p: int)
    ensures Inv(s) && IsMeta(s, 0, p) && IsChunk(s, 0, p) && p !in s.live
  {
    p := 512 * PAGE_SIZE + 264;
    var b, g := BlockView(512, p, META_SIZE, {p}), Big(PAGE_SIZE, 513 * PAGE_SIZE, p);
    s := State([b], [g], map[513 * PAGE_SIZE := PAGE_SIZE], map[512 := 1, 513 := 1], {});
    assert BlockOk(s, b) && BigOk(s, g);
    assert IsChunk(s, 0, p) && IsMeta(s, 0, p) && IsBig(s, 0, 513 * PAGE_SIZE);
    assert forall i, q :: IsChunk(s, i, q) ==> q == p;
  }

  lemma GiveChunkOwnership(s: State, i: nat, p: int)
    requires Inv(s) && IsChunk(s, i, p) && p in s.live
    ensures Ownership(GiveChunk(s, i, p))
  {
    hide BlockOk;
    hide BigOk;
    var t := GiveChunk(s, i, p);
    ChunkIsNotBig(s, i, p);
    ChunkBlockIs(s, i, p);
    assert forall k, q :: IsChunk(t, k, q) <==> IsChunk(s, k, q) && q != p;
    assert forall k :: 0 <= k < |s.blocks| ==> t.blocks[k].eltSize == s.blocks[k].eltSize;
    assert forall j, q :: IsMeta(s, j, q) <==> IsMeta(t, j, q);
    assert forall j, q :: IsBig(s, j, q) <==> IsBig(t, j, q);
  }

  /** A big allocation is handed out: its metadata chunk leaves the live
      addresses and its pages enter them. */
  function AddBig(s: State, g: Big, size: nat): State {
    s.(bigs := [g] + s.bigs, live := (s.live - {g.meta})[g.ptr := size])
  }

  lemma UnusedNotLive(s: State, p: nat)
    requires Inv(s) && Unused(s, PageOf(p))
    ensures p !in s.live
  {
    forall k | 0 <= k < |s.blocks| ensures p !in s.blocks[k].used { assert BlockOk(s, s.blocks[k]); }
  }

  lemma AddBigStep(s: State, g: Big, size: nat, i: nat)
    requires Inv(s) && BigOk(s, g) && Unused(s, PageOf(g.ptr)) && size <= g.size
    requires IsChunk(s, i, g.meta) && s.blocks[i].eltSize == META_SIZE && g.meta in s.live
    ensures g.ptr !in s.live && Inv(AddBig(s, g, size))
  {
    hide Layout;
    hide Unused;
    UnusedNotLive(s, g.ptr);
    forall j | 0 <= j < |s.bigs| ensures s.bigs[j].meta != g.meta { assert IsMeta(s, j, s.bigs[j].meta); }
    AddBigLayout(s, g, size);
    AddBigOwnership(s, g, size, i);
  }

  lemma AddBigLayout(s: State, g: Big, size: nat)
    requires Layout(s) && BigOk(s, g) && Unused(s, PageOf(g.ptr))
    requires forall j :: 0 <= j < |s.bigs| ==> s.bigs[j].meta != g.meta
    ensures Layout(AddBig(s, g, size))
  {
    var t := AddBig(s, g, size);
    forall k | 0 <= k < |t.blocks| ensures BlockOk(t, t.blocks[k]) { assert BlockOk(s, s.blocks[k]); }
    forall j | 0 <= j < |t.bigs| ensures BigOk(t, t.bigs[j]) {
      if j > 0 { assert BigOk(s, s.bigs[j - 1]); }
    }
  }

  lemma AddBigOwnership(s: State, g: Big, size: nat, i: nat)
    requires Inv(s) && size <= g.size && g.ptr !in s.live && Unused(s, PageOf(g.ptr))
    requires IsChunk(s, i, g.meta) && s.blocks[i].eltSize == META_SIZE && g.meta in s.live
    ensures Ownership(AddBig(s, g, size))
  {
    ChunkIsNotBig(s, i, g.meta);
    BigIsNotMeta(s, g.ptr);
    hide Layout;
    AddBigChunks(s, g, size, i);
    AddBigLive(s, g, size);
  }

  lemma AddBigChunks(s: State, g: Big, size: nat, i: nat)
    requires ChunkOwners(s) && (forall j :: !IsMeta(s, j, g.ptr)) && forall k :: !IsChunk(s, k, g.ptr)
    requires IsChunk(s, i, g.meta) && s.blocks[i].eltSize == META_SIZE && g.meta in s.live
    ensures ChunkOwners(AddBig(s, g, size))
  {
    hide AddBig;
    hide IsChunk;
    hide IsMeta;
    hide IsBig;
    AddBigViews(s, g, size);
    var t := AddBig(s, g, size);
    forall k, p | IsChunk(t, k, p)
      ensures (p in t.live && t.live[p] <= t.blocks[k].eltSize) || exists j :: IsMeta(t, j, p)
    {
      if j :| IsMeta(s, j, p) {
        assert IsMeta(t, j + 1, p);
      }
    }
  }

  lemma AddBigLive(s: State, g: Big, size: nat)
    requires LiveOwners(s) && size <= g.size && g.ptr !in s.live && forall j :: !IsBig(s, j, g.meta)
    requires exists k :: IsChunk(s, k, g.meta)
    ensures LiveOwners(AddBig(s, g, size))
  {
    hide AddBig;
    hide IsChunk;
    hide IsMeta;
    hide IsBig;
    AddBigViews(s, g, size);
    var t := AddBig(s, g, size);
    forall p | p in t.live
      ensures (exists k :: IsChunk(t, k, p)) || exists j :: IsBig(t, j, p)
    {
      if j :| IsBig(s, j, p) {
        assert IsBig(t, j + 1, p);
      }
    }
  }

  lemma AddBigViews(s: State, g: Big, size: nat)
    ensures var t := AddBig(s, g, size);
      && t.blocks == s.blocks && t.live == (s.live - {g.meta})[g.ptr := size] && |t.bigs| == |s.bigs| + 1
      && t.bigs[0] == g && IsMeta(t, 0, g.meta) && IsBig(t, 0, g.ptr)
      && (forall k, q :: IsChunk(t, k, q) <==> IsChunk(s, k, q))
      && (forall k, q :: IsChunk(s, k, q) ==> 0 <= k < |s.blocks|)
      && (forall j, q :: IsMeta(t, j, q) ==> (j == 0 && q == g.meta) || IsMeta(s, j - 1, q))
      && (forall j, q :: IsMeta(s, j, q) ==> IsMeta(t, j + 1, q))
      && (forall j, q :: IsBig(s, j, q) ==> IsBig(t, j + 1, q))
      && (forall j, q :: IsBig(t, j, q) ==>
            && 0 <= j < |t.bigs|
            && ((j == 0 && q == g.ptr) || (IsBig(s, j - 1, q) && j > 0 && t.bigs[j] == s.bigs[j - 1])))
  {
  }

  lemma BigIsNotMeta(s: State, p: nat)
    requires Inv(s) && Unused(s, PageOf(p))
    ensures forall j :: !IsMeta(s, j, p) && !IsBig(s, j, p)
  {
    forall k | 0 <= k < |s.blocks| ensures p !in s.blocks[k].used { assert BlockOk(s, s.blocks[k]); }
  }

  function Without<T>(xs: seq<T>, j: nat): seq<T>
    requires j < |xs|
  {
    xs[..j] + xs[j + 1..]
  }

  /** list_del and the release of the pages: the metadata chunk is an ordinary
      live chunk again, to be freed next. */
  function RemoveBig(s: State, j: nat): State
    requires j < |s.bigs|
  {
    s.(bigs := Without(s.bigs, j), live := (s.live - {s.bigs[j].ptr})[s.bigs[j].meta := META_SIZE])
  }

  lemma RemoveBigStep(s: State, j: nat)
    requires Inv(s) && j < |s.bigs|
    ensures Inv(RemoveBig(s, j)) && Unused(RemoveBig(s, j), PageOf(s.bigs[j].ptr))
  {
    RemoveBigLayout(s, j);
    hide Layout;
    RemoveBigOwnership(s, j);
  }

  lemma RemoveBigLayout(s: State, j: nat)
    requires Layout(s) && j < |s.bigs|
    ensures Layout(RemoveBig(s, j)) && Unused(RemoveBig(s, j), PageOf(s.bigs[j].ptr))
  {
    var t, g := RemoveBig(s, j), s.bigs[j];
    forall k | 0 <= k < |t.blocks| ensures BlockOk(t, t.blocks[k]) { assert BlockOk(s, s.blocks[k]); }
    forall k | 0 <= k < |t.bigs| ensures BigOk(t, t.bigs[k]) && PageOf(t.bigs[k].ptr) != PageOf(g.ptr) {
      var o := if k < j then k else k + 1;
      assert t.bigs[k] == s.bigs[o];
      assert BigOk(s, s.bigs[o]) && BigOk(s, g);
    }
  }

  /** The index in Without(xs, j) of the element at index k of xs. */
  function IndexWithout(j: nat, k: nat): nat
    requires k != j
  {
    if k < j then k else k - 1
  }

  lemma BigAfterRemove(s: State, j: nat, k: nat)
    requires j < |s.bigs| && k < |s.bigs| && k != j
    ensures IndexWithout(j, k) < |RemoveBig(s, j).bigs| && RemoveBig(s, j).bigs[IndexWithout(j, k)] == s.bigs[k]
  {
  }

  lemma RemoveBigOwnership(s: State, j: nat)
    requires Inv(s) && j < |s.bigs|
    ensures Ownership(RemoveBig(s, j))
  {
    hide BlockOk;
    hide BigOk;
    hide RemoveBig;
    var t, g := RemoveBig(s, j), s.bigs[j];
    RemoveBigFields(s, j);
    assert IsMeta(s, j, g.meta) && IsBig(s, j, g.ptr);
    assert forall i, p :: IsChunk(t, i, p) <==> IsChunk(s, i, p);
    forall i, p | IsChunk(t, i, p)
      ensures (p in t.live && t.live[p] <= t.blocks[i].eltSize) || exists k :: IsMeta(t, k, p)
    {
      ChunkIsNotBig(s, i, p);
      if p == g.meta {
        var m :| IsChunk(s, m, p) && s.blocks[m].eltSize == META_SIZE;
        ChunkBlockUnique(s, i, m, p);
      } else if k :| IsMeta(s, k, p) {
        BigAfterRemove(s, j, k);
        assert IsMeta(t, IndexWithout(j, k), p);
      }
    }
    forall p | p in t.live
      ensures (exists i :: IsChunk(t, i, p)) || (exists k :: IsBig(t, k, p))
    {
      if p != g.meta && !exists i :: IsChunk(t, i, p) {
        var k :| IsBig(s, k, p);
        BigAfterRemove(s, j, k);
        assert IsBig(t, IndexWithout(j, k), p);
      }
    }
    forall k | 0 <= k < |t.bigs|
      ensures t.bigs[k].meta !in t.live
      ensures exists i :: IsChunk(t, i, t.bigs[k].meta) && t.blocks[i].eltSize == META_SIZE
      ensures t.bigs[k].ptr in t.live && t.live[t.bigs[k].ptr] <= t.bigs[k].size
    {
      RemainingBig(s, j, k);
    }
  }

  lemma RemoveBigFields(s: State, j: nat)
    requires j < |s.bigs|
    ensures var t := RemoveBig(s, j);
      && t.blocks == s.blocks && |t.bigs| == |s.bigs| - 1
      && t.live == (s.live - {s.bigs[j].ptr})[s.bigs[j].meta := META_SIZE]
  {
  }

  lemma RemainingBig(s: State, j: nat, k: nat)
    requires Inv(s) && j < |s.bigs| && k < |s.bigs| - 1
    ensures var t := RemoveBig(s, j); var h := t.bigs[k];
      && h.meta !in t.live
      && (exists i :: IsChunk(t, i, h.meta) && t.blocks[i].eltSize == META_SIZE)
      && h.ptr in t.live && t.live[h.ptr] <= h.size
  {
    hide BlockOk;
    hide BigOk;
    var t := RemoveBig(s, j);
    var o := if k < j then k else k + 1;
    var h := s.bigs[o];
    assert t.bigs[k] == h;
    assert IsMeta(s, o, h.meta) && IsBig(s, o, h.ptr) && IsMeta(s, j, s.bigs[j].meta);
    var i :| IsChunk(s, i, h.meta) && s.blocks[i].eltSize == META_SIZE;
    assert IsChunk(t, i, h.meta);
  }

  /** Once a big allocation is unlinked, its metadata chunk is an ordinary live chunk. */
  lemma MetaAfterRemove(s: State, j: nat)
    requires Inv(s) && j < |s.bigs|
    ensures s.bigs[j].meta !in s.live && s.bigs[j].meta != s.bigs[j].ptr
    ensures forall k :: 0 <= k < |s.bigs| - 1 ==>
      Without(s.bigs, j)[k].meta != s.bigs[j].meta && Without(s.bigs, j)[k].ptr != s.bigs[j].meta
  {
    assert IsMeta(s, j, s.bigs[j].meta) && IsBig(s, j, s.bigs[j].ptr);
    forall k | 0 <= k < |s.bigs| - 1
      ensures Without(s.bigs, j)[k].meta != s.bigs[j].meta && Without(s.bigs, j)[k].ptr != s.bigs[j].meta
    {
      var o := if k < j then k else k + 1;
      assert IsBig(s, o, s.bigs[o].ptr);
    }
  }

  // --------------------------------------------------------------------------
  // Which pages are mapped

  /** mapped is the set of the pages of blocks and of big allocations. */
  ghost predicate MappedPages(blocks: seq<BlockView>, bigs: seq<Big>, mapped: set<int>) {
    forall p :: p in mapped <==> InUse(blocks, bigs, p)
  }

  /** No page of a group that the heap does not use is in use. */
  lemma UnusedNotInUse(s: State, h: int, k: int)
    requires Inv(s) && h in s.groups && Unused(s, h) && h <= k < h + s.groups[h]
    ensures !InUse(s.blocks, s.bigs, k)
  {
    forall i | 0 <= i < |s.blocks| ensures s.blocks[i].page != k { assert BlockOk(s, s.blocks[i]); }
    forall j | 0 <= j < |s.bigs| ensures !s.bigs[j].Covers(k) { assert BigOk(s, s.bigs[j]); }
  }

  lemma InUseAddBlock(s: State, b: BlockView, mapped: set<int>)
    requires MappedPages(s.blocks, s.bigs, mapped)
    ensures MappedPages([b] + s.blocks, s.bigs, mapped + {b.page})
  {
    var t := AddBlock(s, b);
    forall p ensures InUse(t.blocks, t.bigs, p) <==> InUse(s.blocks, s.bigs, p) || p == b.page {
      if p == b.page { assert t.blocks[0].page == p; }
      if i :| 0 <= i < |s.blocks| && s.blocks[i].page == p { assert t.blocks[i + 1].page == p; }
      if i :| 0 <= i < |t.blocks| && t.blocks[i].page == p && p != b.page { assert s.blocks[i - 1].page == p; }
    }
  }

  /** Pages in use do not depend on which chunks are used. */
  lemma InUseUpdate(s: State, i: nat, used: set<int>, mapped: set<int>)
    requires i < |s.blocks| && MappedPages(s.blocks, s.bigs, mapped)
    ensures MappedPages(s.blocks[i := s.blocks[i].(used := used)], s.bigs, mapped)
  {
    var bs := s.blocks[i := s.blocks[i].(used := used)];
    forall p ensures InUse(bs, s.bigs, p) <==> InUse(s.blocks, s.bigs, p) {
      if k :| 0 <= k < |s.blocks| && s.blocks[k].page == p { assert bs[k].page == p; }
    }
  }

  ghost function PagesOf(g: Big): set<int> {
    set p | g.ptr / PAGE_SIZE <= p < g.ptr / PAGE_SIZE + g.size / PAGE_SIZE && g.Covers(p)
  }

  lemma InUseAddBig(s: State, g: Big, mapped: set<int>)
    requires MappedPages(s.blocks, s.bigs, mapped)
    ensures MappedPages(s.blocks, [g] + s.bigs, mapped + PagesOf(g))
  {
    var t := AddBig(s, g, 0);
    forall p ensures InUse(t.blocks, t.bigs, p) <==> InUse(s.blocks, s.bigs, p) || p in PagesOf(g) {
      if p in PagesOf(g) { assert t.bigs[0].Covers(p); }
      if j :| 0 <= j < |s.bigs| && s.bigs[j].Covers(p) { assert t.bigs[j + 1].Covers(p); }
      if j :| 0 <= j < |t.bigs| && t.bigs[j].Covers(p) && p !in PagesOf(g) { assert s.bigs[j - 1].Covers(p); }
    }
  }

  lemma InUseRemoveBig(s: State, j: nat, mapped: set<int>)
    requires Inv(s) && j < |s.bigs| && MappedPages(s.blocks, s.bigs, mapped)
    ensures MappedPages(s.blocks, Without(s.bigs, j), mapped - PagesOf(s.bigs[j]))
  {
    var t, g := RemoveBig(s, j), s.bigs[j];
    forall k | 0 <= k < |t.bigs| ensures t.bigs[k] == s.bigs[if k < j then k else k + 1] {
    }
    forall p ensures InUse(t.blocks, t.bigs, p) <==> InUse(s.blocks, s.bigs, p) && p !in PagesOf(g) {
      if p in PagesOf(g) {
        RemoveBigStep(s, j);
        assert BigOk(s, g);
        UnusedNotInUse(t, PageOf(g.ptr), p);
      } else if k :| 0 <= k < |s.bigs| && s.bigs[k].Covers(p) {
        BigAfterRemove(s, j, k);
      }
    }
  }
}
