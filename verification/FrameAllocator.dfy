/** First-fit allocation of contiguous page frames over the page maps of the
    usable regions (kernel/mem/page_frame_allocator.c). */
module FrameAllocator {
  import opened Memory
  import opened Pagemap

  class Region {
    const firstPage: nat  // address of the first allocatable page
    ghost const first: nat  // and its number
    const nbPages: nat
    const pagemap: array<PageState>

    ghost predicate Valid()
      reads pagemap
    {
      && pagemap.Length == nbPages
      && WellFormed(pagemap[..])
      && firstPage == first * PAGE_SIZE
      && LOW_MEMORY_END <= firstPage
      && firstPage + nbPages * PAGE_SIZE <= TABLE_WINDOW
    }

    ghost predicate AllFree()
      reads pagemap
    {
      forall k :: 0 <= k < pagemap.Length ==> pagemap[k].Free?
    }

    /** Address of page i of the region. */
    function Frame(i: nat): nat {
      firstPage + i * PAGE_SIZE
    }

    ghost predicate Contains(p: int) {
      first <= p < first + nbPages
    }

    constructor (firstPage: nat, nbPages: nat)
      requires Aligned(firstPage) && LOW_MEMORY_END <= firstPage
      requires firstPage + nbPages * PAGE_SIZE <= TABLE_WINDOW
      ensures Valid() && fresh(pagemap)
      ensures this.firstPage == firstPage && this.nbPages == nbPages
      ensures AllFree()
    {
      this.firstPage := firstPage;
      first := PageOf(firstPage);
      this.nbPages := nbPages;
      pagemap := new PageState[nbPages](_ => Free);
    }

    method AllocSingle() returns (pgf: nat, ghost page: nat)
      requires Valid()
      modifies pagemap
      ensures Valid()
      ensures pgf == BAD_PAGE ==> pagemap[..] == old(pagemap[..]) && NoRun(pagemap[..], 1)
      ensures pgf != BAD_PAGE ==>
                && IsFirstFit(old(pagemap[..]), 1, page)
                && pgf == Frame(page)
                && pagemap[..] == Mark(old(pagemap[..]), page, 1)
    {
      for i := 0 to nbPages
        invariant pagemap[..] == old(pagemap[..])
        invariant forall k :: 0 <= k < i ==> !pagemap[k].Free?
      {
        if pagemap[i] == Free {
          ghost var before := pagemap[..];
          assert FreeRun(before, i, 1);
          assert forall j :: 0 <= j < i && FreeRun(before, j, 1) ==> before[j].Free?;
          pagemap[i] := Used;
          assert pagemap[..] == Mark(before, i, 1);
          MarkWellFormed(before, i, 1);
          return Frame(i), i;
        }
      }
      assert forall j :: FreeRun(pagemap[..], j, 1) ==> pagemap[..][j].Free?;
      return BAD_PAGE, 0;
    }

    /** Greedy search: count free pages from a free page; when the run is too
        short, resume after the page that ended it. */
    method AllocMultiple(nbPages: nat) returns (pgf: nat, ghost page: nat)
      requires Valid() && nbPages >= 2
      modifies pagemap
      ensures Valid()
      ensures pgf == BAD_PAGE ==> pagemap[..] == old(pagemap[..]) && NoRun(pagemap[..], nbPages)
      ensures pgf != BAD_PAGE ==>
                && IsFirstFit(old(pagemap[..]), nbPages, page)
                && pgf == Frame(page)
                && pagemap[..] == Mark(old(pagemap[..]), page, nbPages)
    {
      page := 0;
      ghost var s := pagemap[..];
      if nbPages > this.nbPages {
        return BAD_PAGE, 0;
      }
      var start := 0;
      while start <= this.nbPages - nbPages
        invariant pagemap[..] == s
        invariant forall j :: 0 <= j < start ==> !FreeRun(s, j, nbPages)
      {
        if pagemap[start] == Free {
          var blockSize, p := 0, start;
          while blockSize < nbPages && pagemap[p] == Free
            invariant p == start + blockSize && blockSize <= nbPages
            invariant forall k :: start <= k < p ==> s[k].Free?
            decreases nbPages - blockSize
          {
            blockSize := blockSize + 1;
            p := p + 1;
          }
          if blockSize == nbPages {
            page := start;
            MarkRun(start, nbPages);
            return Frame(start), start;
          } else {
            assert !s[p].Free?;
            start := p;
          }
        }
        assert forall j :: j <= start && FreeRun(s, j, nbPages) ==> start < j + nbPages ==> s[start].Free?;
        start := start + 1;
      }
      return BAD_PAGE, 0;
    }

    method MarkRun(start: nat, nbPages: nat)
      requires Valid() && nbPages >= 2 && FreeRun(pagemap[..], start, nbPages)
      modifies pagemap
      ensures Valid()
      ensures pagemap[..] == Mark(old(pagemap[..]), start, nbPages)
    {
      ghost var s := pagemap[..];
      for page := start to start + nbPages
        invariant forall k :: 0 <= k < pagemap.Length ==>
          pagemap[k] == if start <= k < page then Role(start, nbPages, k) else s[k]
      {
        if page == start {
          pagemap[page] := Head;
        } else if page == start + nbPages - 1 {
          pagemap[page] := Tail;
        } else {
          pagemap[page] := Part;
        }
      }
      assert pagemap[..] == Mark(s, start, nbPages);
      MarkWellFormed(s, start, nbPages);
    }

    /** Releases the group that starts at index.  Reports the page states for
        which the source panics; the checks inside the loop never fire. */
    method FreeGroup(index: nat) returns (panicked: bool)
      requires Valid() && index < nbPages
      modifies pagemap
      ensures Valid()
      ensures panicked <==> !Starts(old(pagemap[index]))
      ensures panicked ==> pagemap[..] == old(pagemap[..])
      ensures !panicked ==>
        pagemap[..] == Release(old(pagemap[..]), index, GroupLen(old(pagemap[..]), index))
    {
      ghost var s := pagemap[..];
      if pagemap[index] == Free {
        return true;
      } else if pagemap[index] == Used {
        pagemap[index] := Free;
      } else if pagemap[index] != Head {
        return true;
      } else {
        GroupShape(s, index);
        var i := index;
        while pagemap[i] != Tail
          invariant index <= i < index + GroupLen(s, index)
          invariant forall k :: 0 <= k < pagemap.Length ==>
            pagemap[k] == if index <= k < i then Free else s[k]
          decreases nbPages - i
        {
          if i >= nbPages {
            assert false;
          } else if pagemap[i] != Head && pagemap[i] != Part {
            assert false;
          } else {
            pagemap[i] := Free;
          }
          i := i + 1;
        }
        assert i == index + GroupLen(s, index) - 1;
        pagemap[i] := Free;
      }
      assert pagemap[..] == Release(s, index, GroupLen(s, index));
      ReleaseWellFormed(s, index);
      return false;
    }
  }

  ghost predicate Apart(r: Region, q: Region) {
    r.first + r.nbPages <= q.first || q.first + q.nbPages <= r.first
  }

  /** Page k lies above low memory and below the page-table window. */
  predicate InRam(k: int) {
    LOW_MEMORY_END <= k * PAGE_SIZE < TABLE_WINDOW
  }

  class Allocator {
    const regions: seq<Region>

    // Numbers of all the pages of the regions.
    ghost const managed: set<int>

    // The objects that hold the page maps.
    ghost const Repr: set<object>

    // The groups handed out: number of the first page -> number of pages.
    ghost var live: map<int, nat>

    constructor (regions: seq<Region>)
      requires forall i :: 0 <= i < |regions| ==> regions[i].Valid() && regions[i].AllFree()
      requires forall i, j :: 0 <= i < j < |regions| ==>
        regions[i].pagemap != regions[j].pagemap && Apart(regions[i], regions[j])
      ensures Valid() && this.regions == regions && live == map[]
      ensures fresh(Repr - set i | 0 <= i < |regions| :: regions[i].pagemap as object)
    {
      this.regions := regions;
      managed := set i, p | 0 <= i < |regions| && regions[i].first <= p < regions[i].first + regions[i].nbPages
                         && regions[i].Contains(p) :: p;
      Repr := {this} + set i | 0 <= i < |regions| :: regions[i].pagemap as object;
      live := map[];
      new;
      assert forall i, p :: !StartsAt(Maps(), i, p);
    }

    ghost predicate Separate() {
      && (forall i :: 0 <= i < |regions| ==> regions[i].pagemap in Repr)
      && (forall i, j :: 0 <= i < j < |regions| ==>
            regions[i].pagemap != regions[j].pagemap && Apart(regions[i], regions[j]))
      && (forall p :: p in managed <==> exists i :: 0 <= i < |regions| && regions[i].Contains(p))
    }

    /** The map of region i has a group that starts at page p. */
    ghost predicate StartsAt(maps: seq<Pages>, i: int, p: int) {
      && 0 <= i < |maps| == |regions|
      && regions[i].Contains(p)
      && |maps[i]| == regions[i].nbPages
      && Starts(maps[i][p - regions[i].first])
    }

    /** groups lists exactly the groups found on the page maps. */
    ghost predicate Tracks(maps: seq<Pages>, groups: map<int, nat>) {
      && |maps| == |regions|
      && (forall i :: 0 <= i < |maps| ==> |maps[i]| == regions[i].nbPages && WellFormed(maps[i]))
      && (forall i, p :: StartsAt(maps, i, p) ==>
            p in groups && groups[p] == GroupLen(maps[i], p - regions[i].first))
      && (forall p :: p in groups ==> exists i :: StartsAt(maps, i, p))
    }

    ghost predicate Valid()
      reads this, Repr
    {
      && this in Repr
      && Separate()
      && (forall i :: 0 <= i < |regions| ==> regions[i].Valid())
      && Tracks(Maps(), live)
    }

    ghost function Maps(): (m: seq<Pages>)
      reads set i | 0 <= i < |regions| :: regions[i].pagemap
      ensures |m| == |regions|
      ensures forall i :: 0 <= i < |regions| ==> m[i] == regions[i].pagemap[..]
    {
      seq(|regions|, i requires 0 <= i < |regions|
                       reads if 0 <= i < |regions| then {regions[i].pagemap} else {} =>
        regions[i].pagemap[..])
    }

    lemma MapLength(i: nat)
      requires Valid() && i < |regions|
      ensures |Maps()[i]| == regions[i].nbPages
    {
    }

    lemma ManagedIs(p: int)
      requires Valid()
      ensures p in managed <==> exists i :: 0 <= i < |regions| && regions[i].Contains(p)
    {
    }

    /** The first page of each region. */
    ghost function Firsts(): (s: seq<nat>)
      ensures |s| == |regions|
    {
      seq(|regions|, i requires 0 <= i < |regions| => regions[i].first)
    }

    /** No page belongs to two groups. */
    lemma LiveDisjoint(p: int, q: int)
      requires Valid() && p in live && q in live && p < q
      ensures p + live[p] <= q
    {
      var i :| StartsAt(Maps(), i, p);
      var j :| StartsAt(Maps(), j, q);
      if i == j {
        var r := regions[i];
        GroupsDisjoint(r.pagemap[..], p - r.first, q - r.first);
      }
    }

    /** Every page of a group is managed, above low memory and below the page-table window. */
    lemma LiveManaged(p: int)
      requires Valid() && p in live
      ensures live[p] >= 1
      ensures forall k :: p <= k < p + live[p] ==> k in managed && InRam(k)
    {
      var i :| StartsAt(Maps(), i, p);
      forall k | p <= k < p + live[p]
        ensures k in managed && InRam(k)
      {
        assert regions[i].Contains(k);
      }
    }

    lemma ManagedRange(k: int)
      requires Valid() && k in managed
      ensures InRam(k)
    {
      var i :| 0 <= i < |regions| && regions[i].Contains(k);
      assert regions[i].Valid();
    }

    /** A page address determines its region and its index there. */
    lemma FrameUnique(r: nat, i: nat, q: nat, j: nat)
      requires Separate() && r < |regions| && q < |regions|
      requires regions[r].Valid() && regions[q].Valid()
      requires i < regions[r].nbPages && j < regions[q].nbPages && regions[r].Frame(i) == regions[q].Frame(j)
      ensures r == q && i == j
    {
      assert regions[r].first + i == regions[q].first + j;
      if r != q {
        assert false;
      }
    }

    lemma FramePage(r: nat, i: nat)
      requires Valid() && r < |regions| && i < regions[r].nbPages
      ensures PageOf(regions[r].Frame(i)) == Firsts()[r] + i
    {
      assert regions[r].Valid();
    }

    /** The region and the index of a live page; no other region has it. */
    lemma SpanOf(p: int) returns (r: nat, i: nat)
      requires Valid() && p in live
      ensures r < |regions| && i < regions[r].nbPages && p == regions[r].first + i
      ensures PageOf(regions[r].Frame(i)) == p && regions[r].Frame(i) == p * PAGE_SIZE
      ensures forall q :: 0 <= q < |regions| ==> |Maps()[q]| == regions[q].nbPages
      ensures forall q :: 0 <= q < |regions| && q != r ==> !(Firsts()[q] <= p < Firsts()[q] + |Maps()[q]|)
    {
      r :| 0 <= r < |regions| && StartsAt(Maps(), r, p);
      i := p - regions[r].first;
      assert regions[r].Valid();
    }

    ghost predicate InGroup(p: int, k: int)
      requires p in live
      reads this
    {
      p <= k < p + live[p]
    }

    /** The free pages are exactly the pages of no group. */
    lemma FreeIffNotLive(i: int, k: int)
      requires Valid() && 0 <= i < |regions| && 0 <= k < regions[i].nbPages
      ensures regions[i].pagemap[k].Free? <==> !exists p :: p in live && InGroup(p, regions[i].first + k)
    {
      if regions[i].pagemap[k].Free? {
        forall p | p in live
          ensures !InGroup(p, regions[i].first + k)
        {
          FreeNotInGroup(i, k, p);
        }
      } else {
        var h := UsedInGroup(i, k);
      }
    }

    lemma UsedInGroup(i: int, k: int) returns (p: int)
      requires Valid() && 0 <= i < |regions| && 0 <= k < regions[i].nbPages && !regions[i].pagemap[k].Free?
      ensures p in live && InGroup(p, regions[i].first + k)
    {
      var h := GroupStart(regions[i].pagemap[..], k);
      p := regions[i].first + h;
      assert StartsAt(Maps(), i, p);
    }

    lemma FreeNotInGroup(i: int, k: int, p: int)
      requires Valid() && 0 <= i < |regions| && 0 <= k < regions[i].nbPages && regions[i].pagemap[k].Free?
      requires p in live
      ensures !InGroup(p, regions[i].first + k)
    {
      if InGroup(p, regions[i].first + k) {
        var s, f := Maps()[i], regions[i].first;
        LiveInRegion(i, p, f + k);
        hide Tracks;
        GroupShape(s, p - f);
      }
    }

    /** A group stays inside the region of any of its pages. */
    lemma LiveInRegion(i: int, p: int, k: int)
      requires Valid() && 0 <= i < |regions| && regions[i].Contains(k)
      requires p in live && InGroup(p, k)
      ensures StartsAt(Maps(), i, p) && live[p] == GroupLen(Maps()[i], p - regions[i].first)
    {
      var j :| StartsAt(Maps(), j, p);
      assert regions[j].Contains(k);
      if i != j {
        assert false;
      }
    }

    lemma LiveIffStarts(i: int, k: int)
      requires Valid() && 0 <= i < |regions| && 0 <= k < regions[i].nbPages
      ensures Starts(regions[i].pagemap[k]) <==> regions[i].first + k in live
    {
      var p := regions[i].first + k;
      if p in live {
        LiveManaged(p);
        LiveInRegion(i, p, p);
      } else {
        assert !StartsAt(Maps(), i, p);
      }
    }

    /** Marking a free run adds one start, at no old one, and changes no group. */
    lemma MarkStarts(maps: seq<Pages>, groups: map<int, nat>, r: nat, i: nat, n: nat)
      requires Separate() && Tracks(maps, groups)
      requires r < |maps| && n >= 1 && FreeRun(maps[r], i, n)
      ensures var maps', q := maps[r := Mark(maps[r], i, n)], regions[r].first + i;
        && (forall j :: 0 <= j < |maps'| ==> |maps'[j]| == regions[j].nbPages && WellFormed(maps'[j]))
        && (forall j :: !StartsAt(maps, j, q))
        && (forall j, p :: StartsAt(maps', j, p) <==> (j == r && p == q) || StartsAt(maps, j, p))
        && StartsAt(maps', r, q) && GroupLen(maps'[r], i) == n
        && (forall j, p :: StartsAt(maps, j, p) ==>
              GroupLen(maps'[j], p - regions[j].first) == GroupLen(maps[j], p - regions[j].first))
    {
      hide WellFormed;
      hide Mark;
      hide FreeRun;
      hide GroupLen;
      RunStarts(maps[r], i, n);
      MarkAddsGroup(maps[r], i, n);
    }

    lemma MarkTracks(maps: seq<Pages>, groups: map<int, nat>, r: nat, i: nat, n: nat)
      requires Separate() && Tracks(maps, groups)
      requires r < |maps| && n >= 1 && FreeRun(maps[r], i, n)
      ensures regions[r].first + i !in groups
      ensures Tracks(maps[r := Mark(maps[r], i, n)], groups[regions[r].first + i := n])
    {
      MarkStarts(maps, groups, r, i, n);
      hide WellFormed;
      hide Mark;
      hide FreeRun;
      hide GroupLen;
      hide Separate;
      hide StartsAt;
      var q := regions[r].first + i;
      var maps', groups' := maps[r := Mark(maps[r], i, n)], groups[q := n];
      forall j, p | StartsAt(maps', j, p)
        ensures p in groups' && groups'[p] == GroupLen(maps'[j], p - regions[j].first)
      {
        if p == q {
          assert !StartsAt(maps, j, q);
        }
      }
      forall p | p in groups'
        ensures exists j :: StartsAt(maps', j, p)
      {
        if p != q {
          var j :| StartsAt(maps, j, p);
          assert StartsAt(maps', j, p);
        }
      }
    }

    /** Releasing a group removes its start and changes no other group. */
    lemma ReleaseStarts(maps: seq<Pages>, groups: map<int, nat>, r: nat, i: nat)
      requires Separate() && Tracks(maps, groups)
      requires r < |maps| && i < |maps[r]| && Starts(maps[r][i])
      ensures var maps', q := maps[r := Release(maps[r], i, GroupLen(maps[r], i))], regions[r].first + i;
        && (forall j :: 0 <= j < |maps'| ==> |maps'[j]| == regions[j].nbPages && WellFormed(maps'[j]))
        && (forall j, p :: StartsAt(maps', j, p) <==> p != q && StartsAt(maps, j, p))
        && (forall j, p :: p != q && StartsAt(maps, j, p) ==>
              GroupLen(maps'[j], p - regions[j].first) == GroupLen(maps[j], p - regions[j].first))
    {
      hide WellFormed;
      hide Release;
      ReleaseRemovesGroup(maps[r], i);
    }

    lemma ReleaseTracks(maps: seq<Pages>, groups: map<int, nat>, r: nat, i: nat)
      requires Separate() && Tracks(maps, groups)
      requires r < |maps| && i < |maps[r]| && Starts(maps[r][i])
      ensures Tracks(maps[r := Release(maps[r], i, GroupLen(maps[r], i))], groups - {regions[r].first + i})
    {
      ReleaseStarts(maps, groups, r, i);
      var q := regions[r].first + i;
      var maps' := maps[r := Release(maps[r], i, GroupLen(maps[r], i))];
      hide Release;
      FewerTracks(maps, maps', groups, q);
    }

    /** Page maps with one group start less list one group less. */
    lemma FewerTracks(maps: seq<Pages>, maps': seq<Pages>, groups: map<int, nat>, q: int)
      requires Tracks(maps, groups) && |maps'| == |maps|
      requires forall j :: 0 <= j < |maps'| ==> |maps'[j]| == regions[j].nbPages && WellFormed(maps'[j])
      requires forall j, p :: StartsAt(maps', j, p) <==> p != q && StartsAt(maps, j, p)
      requires forall j, p :: StartsAt(maps', j, p) && StartsAt(maps, j, p) ==>
        GroupLen(maps'[j], p - regions[j].first) == GroupLen(maps[j], p - regions[j].first)
      ensures Tracks(maps', groups - {q})
    {
      hide WellFormed;
      hide GroupLen;
      hide StartsAt;
      forall p | p in groups - {q}
        ensures exists j :: StartsAt(maps', j, p)
      {
        var j :| StartsAt(maps, j, p);
        assert StartsAt(maps', j, p);
      }
    }

    method AllocFrom(k: nat, nbPages: nat) returns (pgf: nat, ghost i: nat)
      requires Valid() && k < |regions| && nbPages >= 1
      modifies Repr
      ensures Valid()
      ensures pgf == BAD_PAGE ==> Maps() == old(Maps()) && live == old(live) && NoRun(old(Maps())[k], nbPages)
      ensures pgf != BAD_PAGE ==>
                && |old(Maps())[k]| == regions[k].nbPages && WellFormed(old(Maps())[k])
                && IsFirstFit(old(Maps())[k], nbPages, i)
                && pgf == regions[k].Frame(i)
                && Maps() == old(Maps())[k := Mark(old(Maps())[k], i, nbPages)]
                && Aligned(pgf) && PageOf(pgf) !in old(live)
                && live == old(live)[PageOf(pgf) := nbPages]
    {
      hide Tracks;
      hide NoRun;
      hide IsFirstFit;
      hide Mark;
      hide WellFormed;
      ghost var maps := Maps();
      var region := regions[k];
      assert maps[k] == region.pagemap[..] && |maps[k]| == region.nbPages;
      if nbPages == 1 {
        pgf, i := region.AllocSingle();
      } else {
        pgf, i := region.AllocMultiple(nbPages);
      }
      if pgf != BAD_PAGE {
        FirstFitIsRun(maps[k], nbPages, i);
        MarkTracks(maps, live, k, i, nbPages);
        live := live[region.first + i := nbPages];
        assert Maps() == maps[k := Mark(maps[k], i, nbPages)];
      } else {
        assert Maps() == maps;
      }
    }

    /** pfa_alloc: the lowest run of the first region that has one. */
    method Alloc(nbPages: nat) returns (pgf: nat, ghost r: nat, ghost i: nat)
      requires Valid()
      modifies Repr
      ensures Valid()
      ensures pgf == BAD_PAGE <==> nbPages == 0 || forall k :: 0 <= k < |regions| ==> NoRun(old(Maps())[k], nbPages)
      ensures pgf == BAD_PAGE ==> Maps() == old(Maps()) && live == old(live)
      ensures pgf != BAD_PAGE ==>
                && r < |regions|
                && (forall k :: 0 <= k < r ==> NoRun(old(Maps())[k], nbPages))
                && |old(Maps())[r]| == regions[r].nbPages && WellFormed(old(Maps())[r])
                && IsFirstFit(old(Maps())[r], nbPages, i)
                && pgf == regions[r].Frame(i)
                && Maps() == old(Maps())[r := Mark(old(Maps())[r], i, nbPages)]
      ensures pgf != BAD_PAGE ==>
                && Aligned(pgf) && PageOf(pgf) !in old(live)
                && live == old(live)[PageOf(pgf) := nbPages]
    {
      hide Valid;
      hide NoRun;
      hide IsFirstFit;
      hide Mark;
      hide WellFormed;
      r, i := 0, 0;
      if nbPages == 0 {
        return BAD_PAGE, 0, 0;
      }
      ghost var maps := Maps();
      for k := 0 to |regions|
        invariant Maps() == maps && live == old(live) && Valid()
        invariant forall j :: 0 <= j < k ==> NoRun(maps[j], nbPages)
      {
        pgf, i := AllocFrom(k, nbPages);
        if pgf != BAD_PAGE {
          FirstFitIsRun(maps[k], nbPages, i);
          return pgf, k, i;
        }
      }
      return BAD_PAGE, 0, 0;
    }

    /** find_region: the region that holds the address, if any. */
    method FindRegion(pgf: Address) returns (i: nat)
      requires Valid()
      ensures i <= |regions|
      ensures i < |regions| ==> regions[i].firstPage <= pgf < regions[i].firstPage + regions[i].nbPages * PAGE_SIZE
      ensures i == |regions| ==> PageOf(pgf) !in managed
    {
      for k := 0 to |regions|
        invariant forall j :: 0 <= j < k ==> !regions[j].Contains(PageOf(pgf))
      {
        if regions[k].firstPage <= pgf < regions[k].firstPage + regions[k].nbPages * PAGE_SIZE {
          return k;
        }
      }
      return |regions|;
    }

    /** pfa_free: panics exactly when pgf is not the address of a live group. */
    method Free(pgf: Address) returns (panicked: bool)
      requires Valid()
      modifies Repr
      ensures Valid()
      ensures panicked <==> !(Aligned(pgf) && PageOf(pgf) in old(live))
      ensures panicked ==> Maps() == old(Maps()) && live == old(live)
      ensures !panicked ==> live == old(live) - {PageOf(pgf)}
      ensures !panicked ==>
        forall r, i | 0 <= r < |regions| && 0 <= i < regions[r].nbPages && regions[r].Frame(i) == pgf ::
          GivenBack(old(Maps()), Maps(), r, i)
    {
      hide Tracks;
      hide Release;
      hide WellFormed;
      ghost var maps := Maps();
      var r := FindRegion(pgf);
      if r == |regions| {
        if PageOf(pgf) in live {
          LiveManaged(PageOf(pgf));
        }
        return true;
      }
      if pgf % PAGE_SIZE != 0 {
        return true;
      }
      var region := regions[r];
      var index := (pgf - region.firstPage) / PAGE_SIZE;
      assert region.Frame(index) == pgf && region.first + index == PageOf(pgf);
      LiveIffStarts(r, index);
      panicked := region.FreeGroup(index);
      if panicked {
        assert Maps() == maps;
      } else {
        ReleaseTracks(maps, live, r, index);
        live := live - {PageOf(pgf)};
        assert Maps() == maps[r := Release(maps[r], index, GroupLen(maps[r], index))];
        forall q, j | 0 <= q < |regions| && 0 <= j < regions[q].nbPages && regions[q].Frame(j) == pgf
          ensures q == r && j == index
        {
          FrameUnique(r, index, q, j);
        }
      }
    }
  }
}
