/** Overlapping copies inside one array (libc/string/memmove.c). */
module MemMove {
  /** What the destination holds is what the source held before, however the
      two ranges overlap; nothing else changes. */
  method Move<T>(a: array<T>, dst: nat, src: nat, n: nat)
    requires dst + n <= a.Length && src + n <= a.Length
    modifies a
    ensures forall k {:trigger a[k]} :: 0 <= k < a.Length ==>
      a[k] == if dst <= k < dst + n then old(a[..])[src + k - dst] else old(a[..])[k]
  {
    ghost var s := a[..];
    if dst < src {
      for i := 0 to n
        invariant forall k {:trigger a[k]} :: dst <= k < dst + i ==> a[k] == s[src + k - dst]
        invariant forall k {:trigger a[k]} :: 0 <= k < a.Length && !(dst <= k < dst + i) ==> a[k] == s[k]
      {
        a[dst + i] := a[src + i];
      }
    } else {
      for i := n downto 0
        invariant forall k {:trigger a[k]} :: dst + i <= k < dst + n ==> a[k] == s[src + k - dst]
        invariant forall k {:trigger a[k]} :: 0 <= k < a.Length && !(dst + i <= k < dst + n) ==> a[k] == s[k]
      {
        a[dst + i] := a[src + i];
      }
    }
  }
}
