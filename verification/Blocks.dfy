/** A page cut into chunks of one size, with its header and chunk map in the
    page itself (kernel/mem/kmalloc.c). */
module Blocks {
  import opened Memory

  const HEADER_SIZE: nat := 24  // sizeof(struct aha_block)
  const POINTER_SIZE: nat := 4

  /** Number of chunks of a block (kernel/mem/kmalloc.c:148-150). */
  function NbElts(eltSize: nat): nat {
    (PAGE_SIZE - HEADER_SIZE - POINTER_SIZE) / (1 + eltSize)
  }

  /** Address of the first chunk: after the chunk map, aligned to a pointer. */
  function FirstChunk(page: nat, nbElts: nat): nat {
    var end := page + HEADER_SIZE + nbElts;
    if end % POINTER_SIZE != 0 then end + POINTER_SIZE - end % POINTER_SIZE else end
  }

  function ChunkAddress(page: nat, eltSize: nat, c: nat): nat {
    FirstChunk(page, NbElts(eltSize)) + c * eltSize
  }

  lemma AtLeastOne(eltSize: nat)
    requires eltSize <= 2048
    ensures NbElts(eltSize) >= 1
  {
  }

  lemma NbEltsFits(eltSize: nat)
    ensures NbElts(eltSize) * (1 + eltSize) <= PAGE_SIZE - HEADER_SIZE - POINTER_SIZE
  {
  }

  /** How a page is cut into chunks of that size: as many as fit with a header of
      24 bytes, a byte for each in the map and up to 4 bytes of alignment, and the
      first one at the first multiple of 4 after the map. */
  predicate WellCut(page: nat, eltSize: nat, nbElts: nat, first: nat) {
    && 28 + nbElts * (1 + eltSize) <= 4096 < 28 + (nbElts + 1) * (1 + eltSize)
    && page + 24 + nbElts <= first < page + 28 + nbElts && first % 4 == 0
  }

  /** There is one way to cut it, for every chunk size. */
  lemma CutIsBest(page: nat, eltSize: nat, n: nat, first: nat)
    ensures WellCut(page, eltSize, n, first) <==> n == NbElts(eltSize) && first == FirstChunk(page, n)
  {
    NbEltsMost(eltSize);
    FirstChunkAligned(page, n);
    hide NbElts;
    hide FirstChunk;
    var m := NbElts(eltSize);
    if n < m {
      Multiples(n + 1, m, 1 + eltSize);
    } else if m < n {
      Multiples(m + 1, n, 1 + eltSize);
    }
  }

  lemma NbEltsMost(eltSize: nat)
    ensures var n := NbElts(eltSize); 28 + n * (1 + eltSize) <= 4096 < 28 + (n + 1) * (1 + eltSize)
  {
    var n, m := NbElts(eltSize), 1 + eltSize;
    assert 4068 == n * m + 4068 % m;
    assert (n + 1) * m == n * m + m;
  }

  lemma FirstChunkAligned(page: nat, n: nat)
    ensures FirstChunk(page, n) % POINTER_SIZE == 0
    ensures page + HEADER_SIZE + n <= FirstChunk(page, n) < page + HEADER_SIZE + n + POINTER_SIZE
  {
  }

  lemma ChunkEnd(c: nat, n: nat, m: nat)
    ensures (c + 1) * m == c * m + m
    ensures n * (1 + m) == n + n * m
    ensures 0 <= c * m
  {
  }

  /** For every chunk size from 8 to 2048 the block has a chunk, and header,
      chunk map and chunks follow each other without overlap inside the page. */
  lemma Geometry(page: nat, eltSize: nat, c: nat)
    requires Aligned(page) && 8 <= eltSize <= 2048 && c < NbElts(eltSize)
    ensures NbElts(eltSize) >= 1
    ensures page + HEADER_SIZE + NbElts(eltSize) <= FirstChunk(page, NbElts(eltSize))
    ensures FirstChunk(page, NbElts(eltSize)) % POINTER_SIZE == 0
    ensures FirstChunk(page, NbElts(eltSize)) <= ChunkAddress(page, eltSize, c)
    ensures ChunkAddress(page, eltSize, c) + eltSize <= page + PAGE_SIZE
  {
    AtLeastOne(eltSize);
    NbEltsFits(eltSize);
    hide NbElts;
    hide FirstChunk;
    var n := NbElts(eltSize);
    FirstChunkAligned(page, n);
    Multiples(c + 1, n, eltSize);
    ChunkEnd(c, n, eltSize);
  }

  lemma Multiples(a: nat, b: nat, m: nat)
    requires a <= b
    ensures a * m <= b * m
  {
    assert (b - a) * m >= 0;
  }

  /** Chunks do not overlap, so an address determines its chunk. */
  lemma ChunksApart(page: nat, eltSize: nat, c: nat, d: nat)
    requires c < d
    ensures ChunkAddress(page, eltSize, c) + eltSize <= ChunkAddress(page, eltSize, d)
  {
    Multiples(c + 1, d, eltSize);
  }

  /** The chunks of an oversized request, whose rounded size is zero, all coincide. */
  lemma ZeroSizeChunksCoincide(page: nat, c: nat, d: nat)
    ensures NbElts(0) > 1 && ChunkAddress(page, 0, c) == ChunkAddress(page, 0, d)
  {
  }

  datatype ChunkState = ChunkFree | ChunkUsed

  function CountFree(s: seq<ChunkState>): (n: nat)
    ensures n <= |s|
  {
    if s == [] then 0 else CountFree(s[..|s| - 1]) + if s[|s| - 1].ChunkFree? then 1 else 0
  }

  lemma {:induction false} CountFreeUpdate(s: seq<ChunkState>, c: nat, v: ChunkState)
    requires c < |s|
    ensures CountFree(s[c := v]) ==
            CountFree(s) + (if v.ChunkFree? then 1 else 0) - (if s[c].ChunkFree? then 1 else 0)
  {
    var t := s[c := v];
    var n := |s| - 1;
    if c == n {
      assert t[..n] == s[..n];
    } else {
      assert t[..n] == s[..n][c := v];
      CountFreeUpdate(s[..n], c, v);
    }
  }

  lemma {:induction false} NoneFree(s: seq<ChunkState>)
    requires forall c :: 0 <= c < |s| ==> !s[c].ChunkFree?
    ensures CountFree(s) == 0
  {
    if s != [] { NoneFree(s[..|s| - 1]); }
  }

  lemma {:induction false} AllFree(s: seq<ChunkState>)
    requires forall c :: 0 <= c < |s| ==> s[c].ChunkFree?
    ensures CountFree(s) == |s|
  {
    if s != [] { AllFree(s[..|s| - 1]); }
  }

  lemma {:induction false} SomeFree(s: seq<ChunkState>, c: nat)
    requires c < |s| && s[c].ChunkFree?
    ensures CountFree(s) > 0
  {
    if c < |s| - 1 { SomeFree(s[..|s| - 1], c); }
  }

  lemma FindFree(s: seq<ChunkState>) returns (c: nat)
    requires CountFree(s) > 0
    ensures c < |s| && s[c].ChunkFree?
  {
    if !exists c :: 0 <= c < |s| && s[c].ChunkFree? {
      NoneFree(s);
      assert false;
    }
    c :| 0 <= c < |s| && s[c].ChunkFree?;
  }

  class Block {
    const addr: nat  // its page
    const eltSize: nat
    const totElts: nat
    const firstPtr: nat
    const chunkmap: array<ChunkState>
    var nbFrees: nat

    ghost var used: set<int>  // the addresses of the used chunks

    ghost predicate Shape() {
      && Aligned(addr) && addr > 0
      && 8 <= eltSize <= 2048
      && totElts == NbElts(eltSize)
      && firstPtr == FirstChunk(addr, totElts)
      && chunkmap.Length == totElts
    }

    function Chunk(c: nat): nat {
      firstPtr + c * eltSize
    }

    ghost predicate UsedAt(p: int, c: int)
      reads chunkmap
    {
      0 <= c < chunkmap.Length && Chunk(c) == p && chunkmap[c].ChunkUsed?
    }

    ghost predicate Valid()
      reads this, chunkmap
    {
      && Shape()
      && nbFrees == CountFree(chunkmap[..])
      && (forall p, c :: UsedAt(p, c) ==> p in used)
      && (forall p :: p in used ==> exists c :: UsedAt(p, c))
    }

    /** The count is positive exactly when some chunk is not used. */
    lemma FreeChunks()
      requires Valid()
      ensures nbFrees > 0 <==> exists c :: 0 <= c < totElts && Chunk(c) !in used
    {
      if c :| 0 <= c < totElts && Chunk(c) !in used {
        assert !UsedAt(Chunk(c), c);
        SomeFree(chunkmap[..], c);
      } else if nbFrees > 0 {
        var c := FindFree(chunkmap[..]);
        if Chunk(c) in used {
          var d :| UsedAt(Chunk(c), d);
          ChunkUnique(c, d);
        }
      }
    }

    lemma HeaderInPage()
      requires Shape()
      ensures totElts >= 1 && addr + HEADER_SIZE + totElts <= firstPtr <= addr + PAGE_SIZE
    {
      AtLeastOne(eltSize);
      Geometry(addr, eltSize, 0);
    }

    /** A used chunk lies in the page, past the header and the chunk map. */
    lemma UsedInPage(p: int)
      requires Valid() && p in used
      ensures addr + HEADER_SIZE + totElts <= firstPtr <= p && p + eltSize <= addr + PAGE_SIZE
    {
      var c :| UsedAt(p, c);
      Geometry(addr, eltSize, c);
    }

    lemma UsedApart(p: int, q: int)
      requires Valid() && p in used && q in used && p < q
      ensures p + eltSize <= q
    {
      var c :| UsedAt(p, c);
      var d :| UsedAt(q, d);
      if c < d {
        ChunksApart(addr, eltSize, c, d);
      } else if d < c {
        ChunksApart(addr, eltSize, d, c);
      }
    }

    lemma ChunkUnique(c: nat, d: nat)
      requires Shape() && Chunk(c) == Chunk(d)
      ensures c == d
    {
      if c != d {
        ChunksApart(addr, eltSize, if c < d then c else d, if c < d then d else c);
      }
    }

    constructor (addr: nat, eltSize: nat)
      requires Aligned(addr) && addr > 0 && 8 <= eltSize <= 2048
      ensures Valid() && fresh(chunkmap)
      ensures this.addr == addr && this.eltSize == eltSize
      ensures used == {} && nbFrees == totElts >= 1 && WellCut(addr, eltSize, totElts, firstPtr)
    {
      var nbElts := NbElts(eltSize);
      this.addr, this.eltSize, totElts := addr, eltSize, nbElts;
      firstPtr := FirstChunk(addr, nbElts);
      nbFrees := nbElts;
      chunkmap := new ChunkState[nbElts](_ => ChunkFree);
      used := {};
      new;
      AtLeastOne(eltSize);
      CutIsBest(addr, eltSize, totElts, firstPtr);
      AllFree(chunkmap[..]);
    }

    /** Takes the lowest free chunk; the source's panic for "no free chunk" is unreachable. */
    method Take() returns (ptr: nat)
      requires Valid() && nbFrees > 0
      modifies this`nbFrees, this`used, chunkmap
      ensures Valid()
      ensures ptr !in old(used) && used == old(used) + {ptr} && nbFrees == old(nbFrees) - 1
      ensures exists c :: 0 <= c < totElts && ptr == Chunk(c) && old(chunkmap[c]).ChunkFree?
                       && (forall d :: 0 <= d < c ==> old(chunkmap[d]).ChunkUsed? && Chunk(d) in old(used))
                       && chunkmap[..] == old(chunkmap[..])[c := ChunkUsed]
    {
      for c := 0 to totElts
        invariant forall d :: 0 <= d < c ==> chunkmap[d].ChunkUsed?
        invariant chunkmap[..] == old(chunkmap[..]) && used == old(used) && nbFrees == old(nbFrees)
      {
        if chunkmap[c] == ChunkFree {
          assert forall d :: 0 <= d < c ==> UsedAt(Chunk(d), d);
          TakeChunk(c);
          return Chunk(c);
        }
      }
      NoneFree(chunkmap[..]);
      assert false;
    }

    method TakeChunk(c: nat)
      requires Valid() && c < totElts && chunkmap[c].ChunkFree?
      modifies this`nbFrees, this`used, chunkmap
      ensures Valid()
      ensures Chunk(c) !in old(used) && used == old(used) + {Chunk(c)} && nbFrees == old(nbFrees) - 1
      ensures chunkmap[..] == old(chunkmap[..])[c := ChunkUsed]
    {
      ghost var s := chunkmap[..];
      CountFreeUpdate(s, c, ChunkUsed);
      if Chunk(c) in used {
        var d :| UsedAt(Chunk(c), d);
        ChunkUnique(c, d);
      }
      chunkmap[c] := ChunkUsed;
      nbFrees := nbFrees - 1;
      used := used + {Chunk(c)};
      assert chunkmap[..] == s[c := ChunkUsed];
      forall p, d | UsedAt(p, d)
        ensures p in used
      {
        if d != c {
          assert old(UsedAt(p, d));
        }
      }
      forall p | p in used
        ensures exists d :: UsedAt(p, d)
      {
        if p == Chunk(c) {
          assert UsedAt(p, c);
        } else {
          var d :| old(UsedAt(p, d));
          assert UsedAt(p, d);
        }
      }
    }

    /** Gives a chunk back; panics exactly when ptr is not a used chunk. */
    method Give(ptr: nat) returns (panicked: bool)
      requires Valid()
      modifies this`nbFrees, this`used, chunkmap
      ensures Valid()
      ensures panicked <==> ptr !in old(used)
      ensures panicked ==> used == old(used) && nbFrees == old(nbFrees) && chunkmap[..] == old(chunkmap[..])
      ensures !panicked ==> used == old(used) - {ptr} && nbFrees == old(nbFrees) + 1
    {
      for c := 0 to totElts
        invariant forall d :: 0 <= d < c ==> Chunk(d) != ptr
        invariant chunkmap[..] == old(chunkmap[..]) && used == old(used) && nbFrees == old(nbFrees)
      {
        if Chunk(c) == ptr {
          if chunkmap[c] == ChunkFree {
            forall d | UsedAt(ptr, d)
              ensures false
            {
              ChunkUnique(c, d);
            }
            return true;
          }
          GiveChunk(c);
          return false;
        }
      }
      assert forall d :: !UsedAt(ptr, d);
      return true;
    }

    method GiveChunk(c: nat)
      requires Valid() && c < totElts && chunkmap[c].ChunkUsed?
      modifies this`nbFrees, this`used, chunkmap
      ensures Valid()
      ensures Chunk(c) in old(used) && used == old(used) - {Chunk(c)} && nbFrees == old(nbFrees) + 1
    {
      ghost var s := chunkmap[..];
      CountFreeUpdate(s, c, ChunkFree);
      assert UsedAt(Chunk(c), c);
      chunkmap[c] := ChunkFree;
      nbFrees := nbFrees + 1;
      used := used - {Chunk(c)};
      assert chunkmap[..] == s[c := ChunkFree];
      forall p, d | UsedAt(p, d)
        ensures p in used
      {
        assert old(UsedAt(p, d));
        if p == Chunk(c) {
          ChunkUnique(c, d);
        }
      }
      forall p | p in used
        ensures exists d :: UsedAt(p, d)
      {
        var d :| old(UsedAt(p, d));
        assert UsedAt(p, d);
      }
    }
  }
}
