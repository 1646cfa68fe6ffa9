/** The circular doubly linked list (kernel/include/kernel/list.h). */
module IntrusiveList {
  /** struct list. */
  class Link {
    var prev: Link
    var next: Link

    /** INIT_LIST_HEAD on a new link. */
    constructor ()
      ensures Ring([this])
    {
      prev, next := this, this;
    }

    /** INIT_LIST_HEAD on a link in use: whatever it headed is forgotten. */
    method Init()
      modifies this
      ensures Ring([this])
    {
      next := this;
      prev := this;
    }
  }

  /** The link after position i of a cycle. */
  ghost function Successor(r: seq<Link>, i: nat): Link
    requires i < |r|
  {
    if i + 1 == |r| then r[0] else r[i + 1]
  }

  /** r is one cycle: no link twice, next goes forward and prev undoes it. */
  ghost predicate Ring(r: seq<Link>)
    reads r
  {
    && r != []
    && (forall i, j :: 0 <= i < j < |r| ==> r[i] != r[j])
    && (forall i :: 0 <= i < |r| ==> r[i].next == Successor(r, i) && Successor(r, i).prev == r[i])
  }

  /** The list with this head holds the links of s, in this order. */
  ghost predicate Holds(head: Link, s: seq<Link>)
    reads head, s
  {
    Ring([head] + s)
  }

  /** __list_add, between the neighbours at positions i and i + 1 of a cycle. */
  method Insert(entry: Link, prev: Link, next: Link, ghost r: seq<Link>, ghost i: nat)
    requires Ring(r) && i < |r| && prev == r[i] && next == Successor(r, i) && entry !in r
    modifies entry, prev, next
    ensures Ring(r[..i + 1] + [entry] + r[i + 1..])
  {
    next.prev := entry;
    entry.next := next;
    entry.prev := prev;
    prev.next := entry;
    ghost var t := r[..i + 1] + [entry] + r[i + 1..];
    InsertedAt(r, i, entry);
    hide Successor;
    forall k | 0 <= k < |t|
      ensures t[k].next == Successor(t, k) && Successor(t, k).prev == t[k]
    {
      ghost var m := if k <= i then k else k - 1;
      assert k != i && k != i + 1 ==> t[k] == r[m] && Successor(t, k) == Successor(r, m);
    }
  }

  /** The neighbours in the cycle with one link more. */
  lemma InsertedAt(r: seq<Link>, i: nat, entry: Link)
    requires i < |r|
    ensures var t := r[..i + 1] + [entry] + r[i + 1..];
      && |t| == |r| + 1 && t[i] == r[i] && t[i + 1] == entry
      && Successor(t, i) == entry && Successor(t, i + 1) == Successor(r, i)
      && (forall k :: 0 <= k < i ==> t[k] == r[k] && Successor(t, k) == Successor(r, k))
      && (forall k :: i + 2 <= k < |t| ==> t[k] == r[k - 1] && Successor(t, k) == Successor(r, k - 1))
  {
  }

  /** list_add. */
  method Add(entry: Link, head: Link, ghost s: seq<Link>)
    requires Holds(head, s) && entry != head && entry !in s
    modifies entry, head, head.next
    ensures Holds(head, [entry] + s)
  {
    ghost var r := [head] + s;
    Insert(entry, head, head.next, r, 0);
    assert r[..1] + [entry] + r[1..] == [head] + ([entry] + s);
  }

  /** list_add_tail. */
  method AddTail(entry: Link, head: Link, ghost s: seq<Link>)
    requires Holds(head, s) && entry != head && entry !in s
    modifies entry, head, head.prev
    ensures Holds(head, s + [entry])
  {
    ghost var r := [head] + s;
    assert head == Successor(r, |s|);
    Insert(entry, head.prev, head, r, |s|);
    assert r[..|s| + 1] + [entry] + r[|s| + 1..] == [head] + (s + [entry]);
  }

  /** __list_del, around position j of a cycle. */
  method Bridge(prev: Link, next: Link, ghost r: seq<Link>, ghost j: nat)
    requires Ring(r) && 0 < j < |r| && prev == r[j - 1] && next == Successor(r, j)
    modifies prev, next
    ensures Ring(r[..j] + r[j + 1..])
    ensures r[j].prev == prev && r[j].next == next
  {
    next.prev := prev;
    prev.next := next;
    ghost var t := r[..j] + r[j + 1..];
    forall k | 0 <= k < |t|
      ensures t[k].next == Successor(t, k) && Successor(t, k).prev == t[k]
    {
      if k == j - 1 {
        assert t[k] == prev && Successor(t, k) == next;
      } else {
        ghost var m := if k < j then k else k + 1;
        assert t[k] == r[m] && Successor(t, k) == Successor(r, m);
      }
    }
  }

  /** list_del: the entry itself keeps its stale neighbours. */
  method Del(entry: Link, head: Link, ghost s: seq<Link>, ghost i: nat)
    requires Holds(head, s) && i < |s| && entry == s[i]
    modifies entry.prev, entry.next
    ensures Holds(head, s[..i] + s[i + 1..])
    ensures entry.prev == old(entry.prev) && entry.next == old(entry.next)
  {
    ghost var r := [head] + s;
    assert r[i + 1] == entry && Successor(r, i) == entry;
    Bridge(entry.prev, entry.next, r, i + 1);
    assert r[..i + 1] + r[i + 2..] == [head] + (s[..i] + s[i + 1..]);
  }

  /** list_empty. */
  method Empty(head: Link, ghost s: seq<Link>) returns (empty: bool)
    requires Holds(head, s)
    ensures empty <==> s == []
  {
    ghost var r := [head] + s;
    assert r[0] == head && head.next == Successor(r, 0);
    empty := head.next == head;
  }

  /** list_for_each_entry with a body that only looks. */
  method Traverse(head: Link, ghost s: seq<Link>) returns (visited: seq<Link>)
    requires Holds(head, s)
    ensures visited == s
  {
    ghost var r := [head] + s;
    visited := [];
    assert r[0] == head;
    var pos := head.next;
    while pos != head
      invariant |visited| <= |s| && visited == s[..|visited|]
      invariant pos == Successor(r, |visited|)
      decreases |s| - |visited|
    {
      assert r[|visited| + 1] == pos;
      visited := visited + [pos];
      pos := pos.next;
    }
  }

  /** The links determine what the list holds. */
  lemma LinksDetermineList(head: Link, s: seq<Link>, t: seq<Link>)
    requires Holds(head, s) && Holds(head, t)
    ensures s == t
  {
    var r, q := [head] + s, [head] + t;
    if |s| <= |t| {
      SameRing(r, q);
    } else {
      SameRing(q, r);
    }
    assert r[1..] == s && q[1..] == t;
  }

  lemma SameRing(r: seq<Link>, q: seq<Link>)
    requires Ring(r) && Ring(q) && |r| <= |q| && r[0] == q[0]
    ensures r == q
  {
    SamePrefix(r, q, |r| - 1);
    SameLength(r, q);
  }

  lemma {:induction false} SamePrefix(r: seq<Link>, q: seq<Link>, k: nat)
    requires Ring(r) && Ring(q) && k < |r| <= |q| && r[0] == q[0]
    ensures forall j :: 0 <= j <= k ==> r[j] == q[j]
    decreases k
  {
    if k > 0 {
      SamePrefix(r, q, k - 1);
      assert r[k] == Successor(r, k - 1) == r[k - 1].next;
      assert q[k] == Successor(q, k - 1) == q[k - 1].next;
    }
  }

  /** The shorter cycle is back at its start where the longer one must be, too. */
  lemma SameLength(r: seq<Link>, q: seq<Link>)
    requires Ring(r) && Ring(q) && |r| <= |q|
    requires forall j :: 0 <= j < |r| ==> r[j] == q[j]
    ensures |r| == |q|
  {
    var n := |r| - 1;
    assert r[n].next == Successor(r, n) == r[0];
    assert q[n].next == Successor(q, n);
  }
}
