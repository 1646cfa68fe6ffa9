/** Null-terminated strings inside a character buffer. */
module CStrings {
  const NUL: char := '\0'

  /** There is a terminator at or after p. */
  ghost predicate Terminated(s: string, p: nat) {
    exists k: nat :: p <= k < |s| && s[k] == NUL
  }

  /** The first c at or after p, or the end of the sequence. */
  function First(s: string, p: nat, c: char): (k: nat)
    requires p <= |s|
    ensures p <= k <= |s| && (k < |s| ==> s[k] == c)
    ensures forall j :: p <= j < k ==> s[j] != c
    decreases |s| - p
  {
    if p == |s| || s[p] == c then p else First(s, p + 1, c)
  }

  /** The string at p, without its terminator. */
  ghost function Str(s: string, p: nat): (r: string)
    requires Terminated(s, p)
    ensures NUL !in r && p + |r| < |s| && s[p + |r|] == NUL && r == s[p..p + |r|]
  {
    s[p..First(s, p, NUL)]
  }

  /** There is only one way to read the string at p. */
  lemma StrIs(s: string, p: nat, r: string)
    requires p + |r| < |s| && s[p..p + |r|] == r && s[p + |r|] == NUL && NUL !in r
    ensures Terminated(s, p) && Str(s, p) == r
  {
    assert forall j :: p <= j < p + |r| ==> s[j] == r[j - p];
  }

  /** Cutting the string at k, and the string that starts at k. */
  lemma StrCut(s: string, p: nat, k: nat)
    requires Terminated(s, p) && k <= |Str(s, p)|
    ensures Terminated(s[p + k := NUL], p) && Str(s[p + k := NUL], p) == Str(s, p)[..k]
    ensures Terminated(s, p + k) && Str(s, p + k) == Str(s, p)[k..]
  {
    var r := Str(s, p);
    StrIs(s[p + k := NUL], p, r[..k]);
    StrIs(s, p + k, r[k..]);
  }

  /** strchr, as in libc/string/strchr.c, which does not find the terminator. */
  method StrChr(mem: array<char>, p: nat, c: char) returns (found: bool, at: nat)
    requires Terminated(mem[..], p)
    ensures var s := Str(mem[..], p);
      && (found <==> First(s, 0, c) < |s|)
      && (found ==> at == p + First(s, 0, c) && mem[at] == c)
  {
    ghost var s := Str(mem[..], p);
    at := p;
    while mem[at] != NUL
      invariant p <= at <= p + |s| && First(s, at - p, c) == First(s, 0, c)
      decreases p + |s| - at
    {
      assert mem[at] == s[at - p];
      if mem[at] == c {
        return true, at;
      }
      at := at + 1;
    }
    return false, at;
  }

  method StrLen(mem: array<char>, p: nat) returns (n: nat)
    requires Terminated(mem[..], p)
    ensures n == |Str(mem[..], p)|
  {
    ghost var s := Str(mem[..], p);
    n := 0;
    while mem[p + n] != NUL
      invariant n <= |s|
      decreases |s| - n
    {
      assert mem[p + n] == s[n];
      n := n + 1;
    }
  }
}
