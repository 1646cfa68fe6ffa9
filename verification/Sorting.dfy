/** Bubble sort with the last-swap shortcut, used on the multiboot map and on
    the multiboot regions (kernel/mem/phys_mem_map.c). */
module Sorting {
  ghost predicate SortedBy<T>(key: T -> int, s: seq<T>) {
    forall i, j :: 0 <= i < j < |s| ==> key(s[i]) <= key(s[j])
  }

  /** Everything from position m on is in its final place. */
  ghost predicate Settled<T>(key: T -> int, s: seq<T>, m: int, n: int) {
    forall i, j :: 0 <= i < j < |s| && m <= j < n ==> key(s[i]) <= key(s[j])
  }

  function Swapped<T>(s: seq<T>, i: nat): (t: seq<T>)
    requires i + 1 < |s|
  {
    s[i := s[i + 1]][i + 1 := s[i]]
  }

  lemma SwapMultiset<T>(s: seq<T>, i: nat)
    requires i + 1 < |s|
    ensures multiset(Swapped(s, i)) == multiset(s)
  {
  }

  lemma SwapSettled<T>(key: T -> int, s: seq<T>, i: nat, n: nat)
    requires i + 1 < n <= |s| && Settled(key, s, n, |s|)
    ensures Settled(key, Swapped(s, i), n, |s|)
  {
  }

  /** The loop of a pass: the largest element so far is at i, and what lies
      between the last swap and i is in order with everything before it. */
  ghost predicate Passed<T>(key: T -> int, s: seq<T>, lastSwap: int, i: int) {
    forall k, j :: 0 <= k < j < |s| && lastSwap <= j <= i ==> key(s[k]) <= key(s[j])
  }

  lemma PassedMore<T>(key: T -> int, s: seq<T>, lastSwap: nat, i: nat)
    requires lastSwap <= i && i + 1 < |s| && Passed(key, s, lastSwap, i)
    ensures key(s[i]) <= key(s[i + 1]) ==> Passed(key, s, lastSwap, i + 1)
    ensures key(s[i]) > key(s[i + 1]) ==> Passed(key, Swapped(s, i), i + 1, i + 1)
  {
  }

  lemma PassedAll<T>(key: T -> int, s: seq<T>, lastSwap: nat, n: nat)
    requires 0 < n <= |s| && Passed(key, s, lastSwap, n - 1) && Settled(key, s, n, |s|)
    ensures Settled(key, s, lastSwap, |s|)
  {
  }

  /** The elements after the last swap are in place, so the next pass stops there. */
  method BubbleSort<T>(a: array<T>, key: T -> int)
    modifies a
    ensures SortedBy(key, a[..])
    ensures multiset(a[..]) == multiset(old(a[..]))
  {
    var nbUnsorted := a.Length;
    while nbUnsorted > 0
      invariant nbUnsorted <= a.Length
      invariant multiset(a[..]) == multiset(old(a[..]))
      invariant Settled(key, a[..], nbUnsorted, a.Length)
    {
      nbUnsorted := Pass(a, key, nbUnsorted);
    }
  }

  method SwapNext<T>(a: array<T>, i: nat)
    requires i + 1 < a.Length
    modifies a
    ensures a[..] == Swapped(old(a[..]), i)
    ensures multiset(a[..]) == multiset(old(a[..]))
  {
    SwapMultiset(a[..], i);
    a[i], a[i + 1] := a[i + 1], a[i];
    assert a[..] == Swapped(old(a[..]), i);
  }

  /** One pass over the unsorted part; returns the position of the last swap. */
  method Pass<T>(a: array<T>, key: T -> int, n: nat) returns (lastSwap: nat)
    requires 0 < n <= a.Length && Settled(key, a[..], n, a.Length)
    modifies a
    ensures lastSwap < n && Settled(key, a[..], lastSwap, a.Length)
    ensures multiset(a[..]) == multiset(old(a[..]))
  {
    hide Settled;
    hide Swapped;
    lastSwap := 0;
    assert Passed(key, a[..], 0, 0);
    hide Passed;
    for i := 0 to n - 1
      invariant lastSwap <= i
      invariant multiset(a[..]) == multiset(old(a[..]))
      invariant Settled(key, a[..], n, a.Length) && Passed(key, a[..], lastSwap, i)
    {
      PassedMore(key, a[..], lastSwap, i);
      if key(a[i]) > key(a[i + 1]) {
        SwapSettled(key, a[..], i, n);
        SwapNext(a, i);
        lastSwap := i + 1;
      }
    }
    PassedAll(key, a[..], lastSwap, n);
  }
}
