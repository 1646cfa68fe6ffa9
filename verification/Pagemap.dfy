/** The byte map of page states kept for each region of frames, as a value:
    what the groups on it are, and what marking and releasing a group does
    (kernel/mem/page_frame_allocator.c). */
module Pagemap {
  datatype PageState = Free | Used | Head | Tail | Part

  type Pages = seq<PageState>

  predicate Opens(p: PageState) {
    p.Head? || p.Part?
  }

  predicate Continues(p: PageState) {
    p.Part? || p.Tail?
  }

  predicate Starts(p: PageState) {
    p.Used? || p.Head?
  }

  /** Neighbours agree: a page has a successor in its group exactly when the
      next page has a predecessor in its group. */
  predicate Joined(s: Pages, i: nat)
    requires i + 1 < |s|
  {
    Opens(s[i]) <==> Continues(s[i + 1])
  }

  predicate WellFormed(s: Pages) {
    && (|s| > 0 ==> !Continues(s[0]) && !Opens(s[|s| - 1]))
    && forall i :: 0 <= i < |s| - 1 ==> Joined(s, i)
  }

  /** Number of pages from i to the end of the group that holds page i. */
  function GroupLen(s: Pages, i: nat): (n: nat)
    requires WellFormed(s) && i < |s| && !s[i].Free?
    ensures 1 <= n && i + n <= |s|
    decreases |s| - i
  {
    if Opens(s[i]) then assert Joined(s, i); 1 + GroupLen(s, i + 1) else 1
  }

  /** Inside a group every page but the last opens and every page but the first continues. */
  lemma {:induction false} GroupShape(s: Pages, i: nat)
    requires WellFormed(s) && i < |s| && !s[i].Free?
    ensures forall k :: i <= k < i + GroupLen(s, i) - 1 ==> Opens(s[k])
    ensures forall k :: i < k < i + GroupLen(s, i) ==> Continues(s[k])
    ensures !Opens(s[i + GroupLen(s, i) - 1])
    decreases |s| - i
  {
    if Opens(s[i]) {
      assert Joined(s, i);
      GroupShape(s, i + 1);
    }
  }

  /** First page of the group that holds page k. */
  function GroupStart(s: Pages, k: nat): (h: nat)
    requires WellFormed(s) && k < |s| && !s[k].Free?
    ensures h <= k && Starts(s[h]) && k < h + GroupLen(s, h)
    ensures h + GroupLen(s, h) == k + GroupLen(s, k)
  {
    if Continues(s[k]) then assert Joined(s, k - 1); GroupStart(s, k - 1) else k
  }

  predicate FreeRun(s: Pages, i: int, n: nat) {
    0 <= i && i + n <= |s| && forall k :: i <= k < i + n ==> s[k].Free?
  }

  /** State of page k of a group of n pages starting at i. */
  function Role(i: nat, n: nat, k: nat): PageState {
    if n == 1 then Used
    else if k == i then Head
    else if k == i + n - 1 then Tail
    else Part
  }

  function Mark(s: Pages, i: nat, n: nat): (t: Pages)
    requires i + n <= |s|
    ensures |t| == |s|
  {
    seq(|s|, k requires 0 <= k < |s| => if i <= k < i + n then Role(i, n, k) else s[k])
  }

  function Release(s: Pages, i: nat, n: nat): (t: Pages)
    requires i + n <= |s|
    ensures |t| == |s|
  {
    seq(|s|, k requires 0 <= k < |s| => if i <= k < i + n then Free else s[k])
  }

  lemma MarkWellFormed(s: Pages, i: nat, n: nat)
    requires WellFormed(s) && n >= 1 && FreeRun(s, i, n)
    ensures WellFormed(Mark(s, i, n))
  {
    var t := Mark(s, i, n);
    forall a | 0 <= a < |t| - 1
      ensures Joined(t, a)
    {
      assert Joined(s, a);
    }
  }

  lemma ReleaseWellFormed(s: Pages, i: nat)
    requires WellFormed(s) && i < |s| && Starts(s[i])
    ensures WellFormed(Release(s, i, GroupLen(s, i)))
  {
    GroupShape(s, i);
    var n := GroupLen(s, i);
    var t := Release(s, i, n);
    forall a | 0 <= a < |t| - 1
      ensures Joined(t, a)
    {
      assert Joined(s, a);
    }
  }

  /** Groups are equal wherever two well-formed maps agree. */
  lemma {:induction false} GroupLenAgrees(s: Pages, t: Pages, i: nat)
    requires WellFormed(s) && WellFormed(t) && |s| == |t|
    requires i < |s| && !s[i].Free?
    requires forall k :: i <= k < i + GroupLen(s, i) ==> s[k] == t[k]
    ensures !t[i].Free? && GroupLen(t, i) == GroupLen(s, i)
    decreases |s| - i
  {
    assert s[i] == t[i];
    if Opens(s[i]) {
      assert Joined(s, i) && Joined(t, i);
      GroupLenAgrees(s, t, i + 1);
    }
  }

  lemma {:induction false} MarkedGroupLen(s: Pages, i: nat, n: nat, k: nat)
    requires WellFormed(s) && n >= 1 && FreeRun(s, i, n)
    requires i <= k < i + n
    ensures WellFormed(Mark(s, i, n))
    ensures GroupLen(Mark(s, i, n), k) == i + n - k
    decreases i + n - k
  {
    MarkWellFormed(s, i, n);
    if k < i + n - 1 {
      assert Joined(Mark(s, i, n), k);
      MarkedGroupLen(s, i, n, k + 1);
    }
  }

  /** Freeing what was just allocated restores the map exactly. */
  lemma ReleaseUndoesMark(s: Pages, i: nat, n: nat)
    requires WellFormed(s) && n >= 1 && FreeRun(s, i, n)
    ensures WellFormed(Mark(s, i, n)) && Starts(Mark(s, i, n)[i])
    ensures GroupLen(Mark(s, i, n), i) == n
    ensures Release(Mark(s, i, n), i, GroupLen(Mark(s, i, n), i)) == s
  {
    MarkedGroupLen(s, i, n, i);
  }

  /** Two groups with different first pages share no page. */
  lemma GroupsDisjoint(s: Pages, i: nat, j: nat)
    requires WellFormed(s) && i < j < |s| && Starts(s[i]) && Starts(s[j])
    ensures i + GroupLen(s, i) <= j
  {
    GroupShape(s, i);
  }

  /** Marking a free run adds the one group and leaves every other group alone. */
  lemma MarkAddsGroup(s: Pages, i: nat, n: nat)
    requires WellFormed(s) && n >= 1 && FreeRun(s, i, n)
    ensures WellFormed(Mark(s, i, n))
    ensures forall k :: 0 <= k < |s| ==> (Starts(Mark(s, i, n)[k]) <==> k == i || Starts(s[k]))
    ensures GroupLen(Mark(s, i, n), i) == n
    ensures forall k :: 0 <= k < |s| && Starts(s[k]) ==> GroupLen(Mark(s, i, n), k) == GroupLen(s, k)
  {
    MarkedGroupLen(s, i, n, i);
    forall k | 0 <= k < |s| && Starts(s[k])
      ensures GroupLen(Mark(s, i, n), k) == GroupLen(s, k)
    {
      GroupShape(s, k);
      GroupLenAgrees(s, Mark(s, i, n), k);
    }
  }

  /** Releasing a group removes it and leaves every other group alone. */
  lemma ReleaseRemovesGroup(s: Pages, i: nat)
    requires WellFormed(s) && i < |s| && Starts(s[i])
    ensures var t := Release(s, i, GroupLen(s, i));
      && WellFormed(t)
      && (forall k :: 0 <= k < |s| ==> (Starts(t[k]) <==> k != i && Starts(s[k])))
      && (forall k :: 0 <= k < |s| && k != i && Starts(s[k]) ==> GroupLen(t, k) == GroupLen(s, k))
  {
    var t := Release(s, i, GroupLen(s, i));
    ReleaseWellFormed(s, i);
    forall k | 0 <= k < |s| && k != i && Starts(s[k])
      ensures !(i <= k < i + GroupLen(s, i)) && GroupLen(t, k) == GroupLen(s, k)
    {
      GroupsDisjoint(s, if i < k then i else k, if i < k then k else i);
      GroupLenAgrees(s, t, k);
    }
  }

  // --------------------------------------------------------------------------
  // First fit

  ghost predicate NoRun(s: Pages, n: nat) {
    forall i :: !FreeRun(s, i, n)
  }

  /** i is the lowest start of n free pages. */
  ghost predicate IsFirstFit(s: Pages, n: nat, i: nat) {
    FreeRun(s, i, n) && forall j :: 0 <= j < i ==> !FreeRun(s, j, n)
  }

  /** None of the maps has nbPages contiguous free pages. */
  ghost predicate NoFreeRun(maps: seq<Pages>, nbPages: nat) {
    forall k :: 0 <= k < |maps| ==> NoRun(maps[k], nbPages)
  }

  /** The lowest run of the first map that has one. */
  ghost predicate FirstRun(maps: seq<Pages>, k: nat, i: nat, n: nat) {
    k < |maps| && NoFreeRun(maps[..k], n) && IsFirstFit(maps[k], n, i)
  }

  /** The page maps before and after the first run of nbPages pages, at i of map r, is taken. */
  ghost predicate Taken(maps: seq<Pages>, now: seq<Pages>, r: nat, i: nat, nbPages: nat) {
    && FirstRun(maps, r, i, nbPages) && i + nbPages <= |maps[r]|
    && WellFormed(maps[r]) && FreeRun(maps[r], i, nbPages)
    && now == maps[r := Mark(maps[r], i, nbPages)]
  }

  /** The page maps before and after the group at i of map r is given back. */
  ghost predicate GivenBack(maps: seq<Pages>, now: seq<Pages>, r: nat, i: nat) {
    && r < |maps| && i < |maps[r]| && WellFormed(maps[r]) && Starts(maps[r][i])
    && now == maps[r := Release(maps[r], i, GroupLen(maps[r], i))]
  }

  lemma FirstRunUnique(maps: seq<Pages>, k: nat, i: nat, p: nat, q: nat, n: nat)
    requires FirstRun(maps, k, i, n) && FirstRun(maps, p, q, n)
    ensures k == p && i == q
  {
    assert k < p ==> maps[..p][k] == maps[k] && NoRun(maps[..p][k], n);
    assert p < k ==> maps[..k][p] == maps[p] && NoRun(maps[..k][p], n);
    FirstFitIsRun(maps[k], n, i);
    FirstFitIsRun(maps[p], n, q);
  }

  lemma RunStarts(s: Pages, i: int, n: nat)
    requires FreeRun(s, i, n) && n >= 1
    ensures 0 <= i && i + n <= |s| && s[i].Free?
  {
  }

  lemma FirstFitIsRun(s: Pages, n: nat, i: nat)
    requires IsFirstFit(s, n, i)
    ensures FreeRun(s, i, n) && !NoRun(s, n)
  {
  }

  // --------------------------------------------------------------------------
  // The grammar of a page map: FREE | USED | HEAD PART* TAIL, repeated.

  datatype Group = FreePage | SinglePage | Block(parts: nat)

  function RenderGroup(g: Group): (s: Pages)
    ensures |s| >= 1
  {
    match g
    case FreePage => [Free]
    case SinglePage => [Used]
    case Block(parts) => [Head] + seq(parts, _ => Part) + [Tail]
  }

  function Render(gs: seq<Group>): Pages {
    if gs == [] then [] else RenderGroup(gs[0]) + Render(gs[1..])
  }

  function FirstGroup(s: Pages): (g: Group)
    requires WellFormed(s) && s != []
    ensures RenderGroup(g) <= s
    ensures |RenderGroup(g)| == if s[0].Free? then 1 else GroupLen(s, 0)
  {
    if s[0].Free? then FreePage
    else if GroupLen(s, 0) == 1 then SinglePage
    else
      var n := GroupLen(s, 0);
      GroupShape(s, 0);
      assert s[n - 2..n] == [s[n - 2], s[n - 1]];
      assert s[n - 1].Tail?;
      Block(n - 2)
  }

  /** The only possible parse, read left to right. */
  function Parse(s: Pages): (gs: seq<Group>)
    requires WellFormed(s)
  {
    if s == [] then []
    else
      var g := FirstGroup(s);
      SuffixWellFormed(s, |RenderGroup(g)|);
      [g] + Parse(s[|RenderGroup(g)|..])
  }

  lemma SuffixWellFormed(s: Pages, n: nat)
    requires WellFormed(s) && 0 < n <= |s| && !Opens(s[n - 1])
    ensures WellFormed(s[n..])
  {
    var t := s[n..];
    forall a | 0 <= a < |t| - 1
      ensures Joined(t, a)
    {
      assert Joined(s, n + a);
    }
    if t != [] {
      assert Joined(s, n - 1);
    }
  }

  lemma JoinWellFormed(s: Pages, t: Pages)
    requires WellFormed(s) && WellFormed(t)
    ensures WellFormed(s + t)
  {
    var u := s + t;
    forall a | 0 <= a < |u| - 1
      ensures Joined(u, a)
    {
      if a + 1 < |s| {
        assert Joined(s, a);
      } else if a >= |s| {
        assert Joined(t, a - |s|);
      }
    }
  }

  /** Every sentence of the grammar is a well-formed map. */
  lemma {:induction false} RenderWellFormed(gs: seq<Group>)
    ensures WellFormed(Render(gs))
  {
    if gs != [] {
      RenderWellFormed(gs[1..]);
      JoinWellFormed(RenderGroup(gs[0]), Render(gs[1..]));
    }
  }

  lemma RenderCons(g: Group, gs: seq<Group>)
    ensures Render([g] + gs) == RenderGroup(g) + Render(gs)
  {
    assert ([g] + gs)[1..] == gs;
  }

  lemma ParseCons(s: Pages)
    requires WellFormed(s) && s != []
    ensures var g := FirstGroup(s);
      WellFormed(s[|RenderGroup(g)|..]) && Parse(s) == [g] + Parse(s[|RenderGroup(g)|..])
  {
    SuffixWellFormed(s, |RenderGroup(FirstGroup(s))|);
  }

  /** Every well-formed map is a sentence of the grammar. */
  lemma {:induction false} RenderParse(s: Pages)
    requires WellFormed(s)
    ensures Render(Parse(s)) == s
    decreases |s|
  {
    if s != [] {
      hide *;
      var g := FirstGroup(s);
      var rest := s[|RenderGroup(g)|..];
      ParseCons(s);
      RenderParse(rest);
      RenderCons(g, Parse(rest));
      assert RenderGroup(g) + rest == s;
    }
  }

  /** The parse is unique: no other list of groups renders to the same map. */
  lemma {:induction false} ParseRender(gs: seq<Group>)
    ensures WellFormed(Render(gs)) && Parse(Render(gs)) == gs
  {
    RenderWellFormed(gs);
    if gs != [] {
      var s, front := Render(gs), RenderGroup(gs[0]);
      RenderWellFormed(gs[1..]);
      ParseRender(gs[1..]);
      FirstGroupIs(gs[0], Render(gs[1..]));
      assert s[|front|..] == Render(gs[1..]);
    }
  }

  lemma FirstGroupIs(g: Group, rest: Pages)
    requires WellFormed(rest)
    ensures WellFormed(RenderGroup(g) + rest) && FirstGroup(RenderGroup(g) + rest) == g
  {
    var s := RenderGroup(g) + rest;
    JoinWellFormed(RenderGroup(g), rest);
    if g.Block? {
      assert s[0].Head? && s[g.parts + 1].Tail?;
      GroupShape(s, 0);
      var n := GroupLen(s, 0);
      assert forall k :: 0 <= k < g.parts + 1 ==> Opens(s[k]);
      assert !Opens(s[n - 1]) && !Opens(s[g.parts + 1]);
    }
  }
}
