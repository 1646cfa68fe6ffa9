/** The receive queue that an interrupt handler fills and the driver empties
    (kernel/drivers/ps2driver.c). */
module Ps2Driver {
  const MAX_RECV: nat := 255  // PS2_DRIVER_MAX_RECV

  type Byte = b: nat | b < 256

  /** The queued bytes of a circular array, oldest first. */
  function Queued(cells: seq<Byte>, head: nat, size: nat): (s: seq<Byte>)
    requires |cells| == MAX_RECV && head < MAX_RECV && size <= MAX_RECV
    ensures |s| == size
  {
    seq(size, i requires 0 <= i < size => cells[(head + i) % MAX_RECV])
  }

  lemma QueuedPush(cells: seq<Byte>, head: nat, size: nat, data: Byte)
    requires |cells| == MAX_RECV && head < MAX_RECV && size < MAX_RECV
    ensures Queued(cells[(head + size) % MAX_RECV := data], head, size + 1) == Queued(cells, head, size) + [data]
  {
  }

  lemma QueuedPop(cells: seq<Byte>, head: nat, size: nat)
    requires |cells| == MAX_RECV && head < MAX_RECV && 0 < size <= MAX_RECV
    ensures Queued(cells, head, size) == [cells[head]] + Queued(cells, (head + 1) % MAX_RECV, size - 1)
  {
    var s, t := Queued(cells, head, size), Queued(cells, (head + 1) % MAX_RECV, size - 1);
    forall i | 0 < i < size
      ensures s[i] == t[i - 1]
    {
      assert (head + i) % MAX_RECV == ((head + 1) % MAX_RECV + (i - 1)) % MAX_RECV;
    }
  }

  class Driver {
    const queue: array<Byte>
    var head: nat
    var last: nat
    var size: nat
    var masked: bool  // the interrupt line is masked: the lock of the driver

    ghost var accepted: seq<Byte>   // what the handler queued since the last flush
    ghost var delivered: seq<Byte>  // what the reader got since the last flush

    ghost predicate Shape()
      reads this
    {
      && queue.Length == MAX_RECV && head < MAX_RECV && size <= MAX_RECV
      && last == (head + size) % MAX_RECV
    }

    ghost function Contents(): seq<Byte>
      requires Shape()
      reads this, queue
    {
      Queued(queue[..], head, size)
    }

    /** In every run: first in, first out, nothing lost and nothing made up. */
    ghost predicate Valid()
      reads this, queue
    {
      Shape() && accepted == delivered + Contents()
    }

    constructor ()
      ensures Valid() && !masked && fresh(queue) && accepted == [] && delivered == []
    {
      queue := new Byte[MAX_RECV](_ => 0);
      head, last, size, masked := 0, 0, 0, false;
      accepted, delivered := [], [];
    }

    /** ps2driver_recv, which runs only while the line is not masked. */
    method Recv(data: Byte) returns (ok: bool)
      requires Valid() && !masked
      modifies `last, `size, `accepted, queue
      ensures Valid()
      ensures ok <==> old(size) < 255
      ensures accepted == old(accepted) + if ok then [data] else []
      ensures Contents() == old(Contents()) + if ok then [data] else []
    {
      hide Queued;
      if size == MAX_RECV {
        return false;
      }
      QueuedPush(queue[..], head, size, data);
      ghost var cells := queue[..];
      queue[last] := data;
      assert queue[..] == cells[(head + size) % MAX_RECV := data];
      last := last + 1;
      if last == MAX_RECV {
        last := 0;
      }
      size := size + 1;
      accepted := accepted + [data];
      return true;
    }

    /** Bytes that arrive at a point where the line is not masked; those that
        find the queue full are lost. */
    method Interrupts(bytes: seq<Byte>) returns (ghost got: seq<Byte>)
      requires Valid() && !masked
      modifies `last, `size, `accepted, queue
      ensures Valid()
      ensures got == Fitting(old(size), bytes)
      ensures accepted == old(accepted) + got && Contents() == old(Contents()) + got
    {
      got := [];
      for i := 0 to |bytes|
        invariant Valid() && got == bytes[..if old(size) + i <= MAX_RECV then i else MAX_RECV - old(size)]
        invariant accepted == old(accepted) + got && Contents() == old(Contents()) + got
      {
        var ok := Recv(bytes[i]);
        got := got + if ok then [bytes[i]] else [];
      }
    }

    method Lock()
      modifies `masked
      ensures masked
    {
      masked := true;
    }

    method Unlock()
      modifies `masked
      ensures !masked
    {
      masked := false;
    }

    /** ps2driver_flush_recv_queue. */
    method Flush()
      requires Valid()
      modifies `head, `last, `size, `masked, `accepted, `delivered
      ensures Valid() && !masked && Contents() == [] && accepted == [] && delivered == []
    {
      Lock();
      head, last, size := 0, 0, 0;
      accepted, delivered := [], [];
      Unlock();
    }

    /** ps2driver_read.  Bytes may arrive at every unmasked point: before the
        first look, while sleeping, and between the look and the dequeue;
        arrivals lists them in that order, and used of them were seen.  patience
        is the number of looks at an empty queue before the timeout expires. */
    method Read(patience: nat, arrivals: seq<seq<Byte>>) returns (ok: bool, data: Byte, used: nat, ghost got: seq<Byte>)
      requires Valid() && !masked
      modifies this, queue
      ensures Valid() && !masked && used <= |arrivals|
      ensures accepted == old(accepted) + got && got == Fitting(old(size), Flatten(arrivals[..used]))
      ensures ok <==> old(size) > 0 || Flatten(arrivals[..Looks(patience, arrivals)]) != []
      ensures ok ==> delivered == old(delivered) + [data] && [data] <= old(Contents()) + got
      ensures !ok ==> delivered == old(delivered)
    {
      hide Queued;
      hide Flatten;
      hide Fitting;
      var seen;
      seen, used, got := Await(patience, arrivals);
      data := 0;
      if seen == 0 {
        return false, 0, used, got;
      }
      data := Dequeue();
      ok := true;
    }

    /** Looks at the queue until it holds a byte or patience has run out. */
    method Poll(patience: nat, arrivals: seq<seq<Byte>>) returns (seen: nat, p: nat, ghost got: seq<Byte>)
      requires Valid() && !masked
      modifies `last, `size, `masked, `accepted, queue
      ensures Valid() && !masked && p <= |arrivals| && got == Fitting(old(size), Flatten(arrivals[..p]))
      ensures accepted == old(accepted) + got && size == old(size) + |got|
      ensures seen == size
      ensures seen > 0 <==> old(size) > 0 || Flatten(arrivals[..Looks(patience, arrivals)]) != []
    {
      hide Queued;
      hide Flatten;
      hide Fitting;
      p, got, seen := 0, [], 0;
      NothingArrived(old(size), arrivals);
      var tries := 0;
      ghost var more;
      while true
        invariant Valid() && !masked && p <= |arrivals| && tries <= patience
        invariant accepted == old(accepted) + got && size == old(size) + |got|
        invariant got == Fitting(old(size), Flatten(arrivals[..p]))
        invariant p == (if tries < |arrivals| then tries else |arrivals|)
        invariant tries > 0 ==> old(size) == 0
        decreases patience + 1 - tries
      {
        p, more := Arrive(arrivals, p, got, old(size));
        got := got + more;
        seen := Look();
        tries := tries + 1;
        AnyFits(old(size), Flatten(arrivals[..p]));
        if Flatten(arrivals[..p]) != [] {
          FlattenMore(arrivals, p, Looks(patience, arrivals));
        }
        if seen != 0 || tries > patience {
          break;
        }
      }
    }

    /** The polling loop, up to the moment when the queue is locked again. */
    method Await(patience: nat, arrivals: seq<seq<Byte>>) returns (seen: nat, p: nat, ghost got: seq<Byte>)
      requires Valid() && !masked
      modifies `last, `size, `masked, `accepted, queue
      ensures Valid() && !masked && p <= |arrivals| && got == Fitting(old(size), Flatten(arrivals[..p]))
      ensures accepted == old(accepted) + got && Contents() == old(Contents()) + got
      ensures seen <= size
      ensures seen > 0 <==> old(size) > 0 || Flatten(arrivals[..Looks(patience, arrivals)]) != []
    {
      hide Queued;
      hide Flatten;
      hide Fitting;
      ghost var more;
      seen, p, got := Poll(patience, arrivals);
      p, more := Arrive(arrivals, p, got, old(size));
      got := got + more;
      QueueGrew(delivered, old(Contents()), Contents(), got);
    }

    /** The size of the queue, read under the lock. */
    method Look() returns (seen: nat)
      requires Valid() && !masked
      modifies `masked
      ensures Valid() && !masked && seen == size
    {
      Lock();
      seen := size;
      Unlock();
    }

    /** Takes the oldest byte; the reader only gets here when it saw one. */
    method Dequeue() returns (data: Byte)
      requires Valid() && size > 0
      modifies `head, `size, `masked, `delivered
      ensures Valid() && !masked
      ensures [data] <= old(Contents()) && delivered == old(delivered) + [data] && size == old(size) - 1
    {
      hide Queued;
      Lock();
      QueuedPop(queue[..], head, size);
      data := queue[head];
      head := head + 1;
      if head == MAX_RECV {
        head := 0;
      }
      size := size - 1;
      delivered := delivered + [data];
      Unlock();
    }

    /** The next batch of arrivals, if there is one. */
    method Arrive(arrivals: seq<seq<Byte>>, p: nat, ghost got: seq<Byte>, ghost before: nat)
      returns (q: nat, ghost more: seq<Byte>)
      requires Valid() && !masked && p <= |arrivals| && before <= MAX_RECV
      requires got == Fitting(before, Flatten(arrivals[..p])) && size == before + |got|
      modifies `last, `size, `accepted, queue
      ensures Valid() && q == (if p < |arrivals| then p + 1 else p)
      ensures got + more == Fitting(before, Flatten(arrivals[..q]))
      ensures accepted == old(accepted) + more && Contents() == old(Contents()) + more
    {
      q, more := p, [];
      if p < |arrivals| {
        more := Interrupts(arrivals[p]);
        q := p + 1;
        OneBatch(before, arrivals, p);
      } else {
        assert got + more == got;
      }
    }

    /** The arrivals from p on, after the reader is done. */
    method Late(arrivals: seq<seq<Byte>>, p: nat) returns (ghost got: seq<Byte>)
      requires Valid() && !masked && p <= |arrivals|
      modifies `last, `size, `accepted, queue
      ensures Valid() && got == Fitting(old(size), Flatten(arrivals[p..]))
      ensures accepted == old(accepted) + got && Contents() == old(Contents()) + got
    {
      hide Queued;
      hide Fitting;
      hide Flatten;
      ghost var rest := arrivals[p..];
      got := [];
      NothingArrived(size, rest);
      for i := p to |arrivals|
        invariant Valid() && got == Fitting(old(size), Flatten(rest[..i - p]))
        invariant accepted == old(accepted) + got && Contents() == old(Contents()) + got
      {
        ghost var batch := Interrupts(arrivals[i]);
        OneBatch(old(size), rest, i - p);
        got := got + batch;
      }
      assert rest[..|rest|] == rest;
    }
  }

  /** What a queue that holds before bytes keeps of bytes: the first ones that fit. */
  function Fitting(before: nat, bytes: seq<Byte>): (r: seq<Byte>)
    requires before <= MAX_RECV
    ensures r <= bytes && before + |r| <= MAX_RECV
    ensures before + |bytes| <= MAX_RECV ==> r == bytes
  {
    if before + |bytes| <= MAX_RECV then bytes else bytes[..MAX_RECV - before]
  }

  /** How many batches have arrived by the last look before the timeout. */
  function Looks(patience: nat, arrivals: seq<seq<Byte>>): (k: nat)
    ensures k <= |arrivals|
  {
    if patience + 1 < |arrivals| then patience + 1 else |arrivals|
  }

  lemma AnyFits(before: nat, bytes: seq<Byte>)
    requires before <= MAX_RECV
    ensures before == 0 ==> (Fitting(before, bytes) == [] <==> bytes == [])
  {
  }

  lemma FlattenMore(batches: seq<seq<Byte>>, p: nat, q: nat)
    requires p <= q <= |batches| && Flatten(batches[..p]) != []
    ensures Flatten(batches[..q]) != []
  {
    assert batches[..q][..p] == batches[..p];
    FlattenCut(batches[..q], p);
  }

  function Flatten(batches: seq<seq<Byte>>): seq<Byte> {
    if batches == [] then [] else Flatten(batches[..|batches| - 1]) + batches[|batches| - 1]
  }

  lemma QueueGrew(delivered: seq<Byte>, before: seq<Byte>, after: seq<Byte>, got: seq<Byte>)
    requires delivered + after == delivered + before + got
    ensures after == before + got
  {
    assert after == (delivered + after)[|delivered|..];
    assert before + got == (delivered + before + got)[|delivered|..];
  }

  lemma NothingArrived(before: nat, arrivals: seq<seq<Byte>>)
    requires before <= MAX_RECV
    ensures Flatten(arrivals[..0]) == [] && Fitting(before, Flatten(arrivals[..0])) == []
  {
  }

  lemma OneBatch(before: nat, arrivals: seq<seq<Byte>>, p: nat)
    requires before <= MAX_RECV && p < |arrivals|
    ensures Flatten(arrivals[..p + 1]) == Flatten(arrivals[..p]) + arrivals[p]
    ensures var got := Fitting(before, Flatten(arrivals[..p]));
      Fitting(before, Flatten(arrivals[..p + 1])) == got + Fitting(before + |got|, arrivals[p])
  {
    assert arrivals[..p + 1][..p] == arrivals[..p];
    var bytes, more := Flatten(arrivals[..p]), arrivals[p];
    assert Flatten(arrivals[..p + 1]) == bytes + more;
    hide Flatten;
    FittingMore(before, bytes, more);
  }

  lemma FittingMore(before: nat, bytes: seq<Byte>, more: seq<Byte>)
    requires before <= MAX_RECV
    ensures var got := Fitting(before, bytes);
      Fitting(before, bytes + more) == got + Fitting(before + |got|, more)
  {
  }

  lemma {:induction false} FlattenCut(batches: seq<seq<Byte>>, p: nat)
    requires p <= |batches|
    ensures Flatten(batches) == Flatten(batches[..p]) + Flatten(batches[p..])
    decreases |batches|
  {
    if p == |batches| {
      assert batches[..p] == batches;
    } else {
      var n := |batches| - 1;
      assert batches[..n][..p] == batches[..p] && batches[..n][p..] == batches[p..][..n - p];
      FlattenCut(batches[..n], p);
    }
  }

  // --------------------------------------------------------------------------
  // What was accepted, compared with what arrived

  /** s is what is left of t when some of its bytes are lost. */
  ghost predicate Subsequence(s: seq<Byte>, t: seq<Byte>)
    decreases |t|
  {
    || s == []
    || (t != [] && Subsequence(s, t[..|t| - 1]))
    || (t != [] && s[|s| - 1] == t[|t| - 1] && Subsequence(s[..|s| - 1], t[..|t| - 1]))
  }

  lemma {:induction false} PrefixKept(s: seq<Byte>, t: seq<Byte>, u: seq<Byte>, v: seq<Byte>)
    requires Subsequence(s, t) && u <= v
    ensures Subsequence(s + u, t + v)
    decreases |v|
  {
    if v == [] {
      assert s + u == s && t + v == t;
    } else {
      var n := |v| - 1;
      assert (t + v)[..|t + v| - 1] == t + v[..n];
      if |u| <= n {
        PrefixKept(s, t, u, v[..n]);
        assert Subsequence(s + u, t + v[..n]);
      } else {
        PrefixKept(s, t, u[..n], v[..n]);
        assert (s + u)[..|s + u| - 1] == s + u[..n];
      }
    }
  }
}
