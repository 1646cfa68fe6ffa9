/** The keyboard task over the interrupt-fed receive queue
    (kernel/drivers/keyboard.c:475-607, 1117-1140). */
module Keyboard {
  import opened Keycodes
  import opened Ps2Driver
  import opened ScanDecoder

  // the decoder after a reset
  const START := Kbd(WaitScan, [], 0)

  /** What one more byte adds. */
  lemma StaysInStep(delivered: seq<Byte>, before: Kbd, b: Byte, emitted: seq<Decoded>)
    requires Inv(before) && (before.state == WaitScan || before.state == ReadMore)
    requires emitted + Pending(before) == Events(START, delivered) && Settle(before) == After(START, delivered)
    ensures Inv(Feed(before, b)) && Feed(before, b).state != Reset
    ensures emitted + Pending(Feed(before, b)) == Events(START, delivered + [b])
    ensures Settle(Feed(before, b)) == After(START, delivered + [b])
  {
    hide Feed;
    hide Translation;
    EventsSplit(START, delivered, [b]);
    Step(before, b, []);
  }

  class Keyboard {
    const driver: Driver
    const scancodes: array<Byte>
    var state: State
    var len: nat
    var need: nat

    ghost var emitted: seq<Decoded>  // the events reported since the last reset

    /** The decoder state that the fields stand for. */
    ghost function Decoder(): Kbd
      requires len <= scancodes.Length
      reads this, scancodes
    {
      Kbd(state, scancodes[..len], need)
    }

    ghost predicate Valid()
      reads this, scancodes, driver, driver.queue
    {
      && driver.Valid() && !driver.masked
      && scancodes != driver.queue && scancodes.Length == 8 && len <= 8
      && Inv(Decoder())
      && (state != Reset ==> InStep())
    }

    /** The bytes that were read had exactly the effect that they have on the decoder. */
    ghost predicate InStep()
      requires len <= scancodes.Length && Inv(Decoder()) && state != Reset
      reads this, scancodes, driver
    {
      && emitted + Pending(Decoder()) == Events(START, driver.delivered)
      && Settle(Decoder()) == After(START, driver.delivered)
    }

    /** The oldest byte was taken and fed to the decoder, or the call found the
        queue empty and changed nothing. */
    ghost predicate Advanced(before: Kbd, delivered: seq<Byte>, size: nat)
      requires len <= scancodes.Length
      requires before.state == WaitScan || (before.state == ReadMore && before.need >= 1)
      reads this, scancodes, driver
    {
      || (size == 0 && Decoder() == before && driver.delivered == delivered)
      || (|driver.delivered| == |delivered| + 1 && delivered <= driver.delivered
          && Decoder() == Feed(before, driver.delivered[|delivered|]))
    }

    constructor ()
      ensures Valid() && state == Reset && fresh(driver) && fresh(driver.queue) && fresh(scancodes)
    {
      driver := new Driver();
      scancodes := new Byte[8](_ => 0);
      state, len, need := Reset, 0, 0;
      emitted := [];
    }

    /** A byte from the controller: the interrupt handler of the driver. */
    method Interrupt(data: Byte) returns (ok: bool)
      requires Valid()
      modifies driver, driver.queue
      ensures Valid()
      ensures driver.delivered == old(driver.delivered)
      ensures driver.accepted == old(driver.accepted) + if ok then [data] else []
      ensures ok <==> |old(driver.Contents())| < MAX_RECV
    {
      ok := driver.Recv(data);
    }

    /** keyboard_state_translate. */
    method TranslateState() returns (r: Decoded)
      requires Valid() && state == Translate
      modifies this
      ensures Valid() && state == WaitScan
      ensures r == Translation(scancodes[..len]) && emitted == old(emitted) + [r]
    {
      if len == 1 {
        r := Decoded(ScanToKey(scancodes[0]), true);
      } else if len == 2 {
        if scancodes[0] == 0xe0 {
          r := Decoded(Key(Scan2BytesToKey(scancodes[1])), true);
        } else {
          r := Decoded(ScanToKey(scancodes[1]), false);
        }
      } else if len == 3 {
        r := Decoded(Key(Scan2BytesToKey(scancodes[2])), false);
      } else if len == 4 {
        r := Decoded(Key(KeyPrntScrn), true);
      } else if len == 6 {
        r := Decoded(Key(KeyPrntScrn), false);
      } else if len == 8 {
        r := Decoded(Key(KeyPause), true);
      } else {
        assert false;  // "unknown sequence len"
        r := Decoded(Key(KeyUnk), true);
      }
      state := WaitScan;
      emitted := emitted + [r];
    }

    /** keyboard_state_read_more. */
    method ReadMoreState(arrivals: seq<seq<Byte>>) returns (used: nat, ghost got: seq<Byte>)
      requires Valid() && state == ReadMore
      modifies this, scancodes, driver, driver.queue
      ensures Valid() && driver.accepted == old(driver.accepted) + got && emitted == old(emitted)
      ensures Advanced(old(Decoder()), old(driver.delivered), old(driver.size))
      ensures state != Reset && used <= |arrivals| && got == Fitting(old(driver.size), Flatten(arrivals[..used]))
    {
      hide Pending;
      hide Settle;
      hide Queued;
      hide Translation;
      hide Events;
      hide After;
      hide Fitting;
      hide Flatten;
      var ok, scancode;
      ok, scancode, used, got := driver.Read(0, arrivals);
      if !ok {
        return;
      }
      StaysInStep(old(driver.delivered), Decoder(), scancode, emitted);
      Append(scancode);
    }

    /** The rest of keyboard_state_read_more, once there is a scan code. */
    method Append(scancode: Byte)
      requires scancodes.Length == 8 && len <= 8 && Inv(Decoder()) && state == ReadMore
      modifies `len, `need, `state, scancodes
      ensures len <= 8 && Decoder() == Feed(old(Decoder()), scancode)
    {
      scancodes[len] := scancode;
      len := len + 1;
      assert scancodes[..len] == old(scancodes[..len]) + [scancode];
      need := need - 1;
      if len == 2 && scancodes[0] == 0xe0 {
        if scancodes[1] == 0x12 {
          need := 2;
        } else if scancodes[1] == 0xf0 {
          need := 1;
        }
      } else if len == 3 && scancodes[2] == 0x7c {
        need := 3;
      }
      if need == 0 {
        state := Translate;
      }
    }

    /** keyboard_state_wait_scan. */
    method WaitScanState(arrivals: seq<seq<Byte>>) returns (used: nat, ghost got: seq<Byte>)
      requires Valid() && state == WaitScan
      modifies this, scancodes, driver, driver.queue
      ensures Valid() && driver.accepted == old(driver.accepted) + got && emitted == old(emitted)
      ensures Advanced(old(Decoder()), old(driver.delivered), old(driver.size))
      ensures state != Reset && used <= |arrivals| && got == Fitting(old(driver.size), Flatten(arrivals[..used]))
    {
      hide Pending;
      hide Settle;
      hide Queued;
      hide Translation;
      hide Events;
      hide After;
      hide Fitting;
      hide Flatten;
      var ok, scancode;
      ok, scancode, used, got := driver.Read(0, arrivals);
      if !ok {
        return;
      }
      ghost var before := Decoder();
      StaysInStep(old(driver.delivered), before, scancode, emitted);
      scancodes[0] := scancode;
      len := 1;
      assert scancodes[..len] == [scancode];
      if scancode == 0xe0 || scancode == 0xf0 {
        need := 1;
        state := ReadMore;
      } else if scancode == 0xe1 {
        need := 7;
        state := ReadMore;
      } else {
        state := Translate;
      }
      assert Decoder() == Feed(before, scancode);
    }

    /** keyboard_state_reset. */
    method ResetState()
      requires Valid() && state == Reset
      modifies this, driver
      ensures Valid() && Decoder() == START && driver.accepted == [] && emitted == []
    {
      driver.Flush();
      len := 0;
      need := 0;
      state := WaitScan;
      emitted := [];
    }

    /** The bytes that arrive when the reader of the queue is done. */
    method Late(arrivals: seq<seq<Byte>>, used: nat) returns (ghost got: seq<Byte>)
      requires Valid() && used <= |arrivals|
      modifies driver, driver.queue
      ensures Valid() && got == Fitting(old(driver.size), Flatten(arrivals[used..]))
      ensures driver.accepted == old(driver.accepted) + got && driver.delivered == old(driver.delivered)
    {
      hide Events;
      hide After;
      hide Translation;
      hide Queued;
      hide Fitting;
      hide Flatten;
      got := driver.Late(arrivals, used);
    }

    /** keyboard_task itself: one step of the state machine. */
    method Dispatch(arrivals: seq<seq<Byte>>) returns (used: nat, ghost got: seq<Byte>)
      requires Valid()
      modifies this, scancodes, driver, driver.queue
      ensures Valid() && state != Reset
      ensures old(state) == Reset ==> driver.accepted == got && emitted == [] && Decoder() == START
      ensures old(state) != Reset ==> driver.accepted == old(driver.accepted) + got
      ensures old(state) == Translate ==>
        emitted == old(emitted) + [Translation(old(scancodes[..len]))] && driver.delivered == old(driver.delivered)
      ensures old(state) == WaitScan || old(state) == ReadMore ==>
        emitted == old(emitted) && Advanced(old(Decoder()), old(driver.delivered), old(driver.size))
      ensures used <= |arrivals| && got <= Flatten(arrivals[..used]) && driver.size <= old(driver.size) + |got|
      ensures old(driver.size) + |Flatten(arrivals[..used])| <= MAX_RECV ==> got == Flatten(arrivals[..used])
    {
      hide Events;
      hide After;
      hide Feed;
      hide Translation;
      hide Pending;
      hide Queued;
      hide Flatten;
      hide Fitting;
      got, used := [], 0;
      NothingArrived(driver.size, arrivals);
      match state {
        case Reset => ResetState();
        case WaitScan => used, got := WaitScanState(arrivals);
        case ReadMore => used, got := ReadMoreState(arrivals);
        case Translate => var r := TranslateState();
      }
      assert |driver.accepted| == |driver.delivered| + driver.size;
    }

    /** keyboard_task, with the bytes that arrive while it runs: those that the
        reader of the queue does not see arrive after it. */
    method Task(arrivals: seq<seq<Byte>>) returns (ghost got: seq<Byte>)
      requires Valid()
      modifies this, scancodes, driver, driver.queue
      ensures Valid() && state != Reset
      ensures old(state) == Reset ==> driver.accepted == got && emitted == [] && Decoder() == START
      ensures old(state) != Reset ==> driver.accepted == old(driver.accepted) + got
      ensures old(state) == Translate ==>
        emitted == old(emitted) + [Translation(old(scancodes[..len]))] && driver.delivered == old(driver.delivered)
      ensures old(state) == WaitScan || old(state) == ReadMore ==>
        emitted == old(emitted) && Advanced(old(Decoder()), old(driver.delivered), old(driver.size))
      ensures Subsequence(got, Flatten(arrivals))
      ensures old(driver.size) + |Flatten(arrivals)| <= MAX_RECV ==> got == Flatten(arrivals)
    {
      hide Events;
      hide After;
      hide Feed;
      hide Translation;
      hide Pending;
      hide Queued;
      hide Flatten;
      hide Fitting;
      hide Subsequence;
      var used: nat;
      used, got := Dispatch(arrivals);
      ghost var late := Late(arrivals, used);
      FlattenCut(arrivals, used);
      TwoParts(Flatten(arrivals[..used]), Flatten(arrivals[used..]), got, late);
      got := got + late;
    }
  }

  lemma TwoParts(a: seq<Byte>, b: seq<Byte>, s: seq<Byte>, t: seq<Byte>)
    requires s <= a && t <= b
    ensures Subsequence(s + t, a + b)
  {
    PrefixKept([], [], s, a);
    assert [] + s == s && [] + a == a;
    PrefixKept(s, a, t, b);
  }

  // --------------------------------------------------------------------------
  // Whole runs: interrupts and calls of keyboard_task in any order

  datatype Turn = Irq(data: Byte) | Poll(arrivals: seq<seq<Byte>>)

  /** The bytes that arrive in a schedule, in order. */
  ghost function Arrived(turns: seq<Turn>): seq<Byte> {
    if turns == [] then [] else Arrived(turns[..|turns| - 1]) + BytesOf(turns[|turns| - 1])
  }

  ghost function BytesOf(turn: Turn): seq<Byte> {
    match turn case Irq(data) => [data] case Poll(arrivals) => Flatten(arrivals)
  }

  /** Calls of keyboard_task that a schedule may leave to do: two for each byte
      that arrived, less one for each call that was made. */
  ghost function Backlog(turns: seq<Turn>): nat {
    if turns == [] then 0
    else
      var before, turn := Backlog(turns[..|turns| - 1]), turns[|turns| - 1];
      2 * |BytesOf(turn)| + if turn.Poll? && before > 0 then before - 1 else before
  }

  /** The calls keep up with the keys: there is always room for what arrives. */
  ghost predicate KeepsUp(turns: seq<Turn>) {
    forall k :: 0 <= k < |turns| ==> Backlog(turns[..k]) + 2 * |BytesOf(turns[k])| <= 2 * MAX_RECV + 1
  }

  /** One turn: what arrives is accepted, in order, but for what finds the queue
      full, and a call of keyboard_task takes one step of the work. */
  method TakeTurn(keyboard: Keyboard, turn: Turn) returns (ghost got: seq<Byte>)
    requires keyboard.Valid() && keyboard.state != Reset
    modifies keyboard, keyboard.scancodes, keyboard.driver, keyboard.driver.queue
    ensures keyboard.Valid() && keyboard.state != Reset
    ensures keyboard.driver.accepted == old(keyboard.driver.accepted) + got && Subsequence(got, BytesOf(turn))
    ensures old(keyboard.driver.size) + |BytesOf(turn)| <= MAX_RECV ==> got == BytesOf(turn)
    ensures var before := Work(old(keyboard.driver.size), old(keyboard.state));
      Work(keyboard.driver.size, keyboard.state) <=
      2 * |BytesOf(turn)| + if turn.Poll? && before > 0 then before - 1 else before
  {
    hide Events;
    hide After;
    hide Feed;
    hide Translation;
    hide Queued;
    hide Flatten;
    assert |keyboard.driver.accepted| == |keyboard.driver.delivered| + keyboard.driver.size;
    match turn {
      case Irq(data) =>
        var ok := keyboard.Interrupt(data);
        got := if ok then [data] else [];
      case Poll(arrivals) =>
        got := keyboard.Task(arrivals);
        NoLonger(got, Flatten(arrivals));
    }
    assert |keyboard.driver.accepted| == |keyboard.driver.delivered| + keyboard.driver.size;
  }

  lemma {:induction false} NoLonger(s: seq<Byte>, t: seq<Byte>)
    requires Subsequence(s, t)
    ensures |s| <= |t|
    decreases |t|
  {
    if s != [] {
      if Subsequence(s, t[..|t| - 1]) {
        NoLonger(s, t[..|t| - 1]);
      } else {
        NoLonger(s[..|s| - 1], t[..|t| - 1]);
      }
    }
  }

  /** Any schedule after the reset.  The bytes accepted are those that arrive, in
      order, all of them when the calls keep up.  If they come from the keys es,
      then no event is made up, lost, doubled or reordered. */
  method Run(keyboard: Keyboard, turns: seq<Turn>) returns (ghost got: seq<Byte>)
    requires keyboard.Valid() && keyboard.state == Reset
    modifies keyboard, keyboard.scancodes, keyboard.driver, keyboard.driver.queue
    ensures keyboard.Valid() && keyboard.state != Reset && keyboard.driver.accepted == got
    ensures Subsequence(got, Arrived(turns)) && (KeepsUp(turns) ==> got == Arrived(turns))
    ensures Work(keyboard.driver.size, keyboard.state) <= Backlog(turns)
    ensures forall es :: AllEncodable(es) && got <= EncodeAll(es) ==>
              && keyboard.emitted <= AllDecoded(es)
              && (got == EncodeAll(es) && keyboard.driver.Contents() == [] && keyboard.state == WaitScan ==>
                    keyboard.emitted == AllDecoded(es))
  {
    hide Events;
    hide After;
    hide EncodeAll;
    hide AllDecoded;
    hide Encodable;
    hide Subsequence;
    hide BytesOf;
    hide Queued;
    got := keyboard.Task([]);
    assert got == [];
    NothingLost(turns);
    for i := 0 to |turns|
      invariant keyboard.Valid() && keyboard.state != Reset && keyboard.driver.accepted == got
      invariant Subsequence(got, Arrived(turns[..i]))
      invariant KeepsUp(turns) ==> got == Arrived(turns[..i])
      invariant Work(keyboard.driver.size, keyboard.state) <= Backlog(turns[..i])
    {
      ghost var more := TakeTurn(keyboard, turns[i]);
      OneTurn(turns, i, got, more);
      got := got + more;
    }
    assert turns[..|turns|] == turns;
    forall es | AllEncodable(es) && got <= EncodeAll(es)
      ensures keyboard.emitted <= AllDecoded(es)
      ensures got == EncodeAll(es) && keyboard.driver.Contents() == [] && keyboard.state == WaitScan ==>
                keyboard.emitted == AllDecoded(es)
    {
      Reported(es, keyboard.driver.delivered, keyboard.Decoder(), keyboard.emitted);
    }
  }

  lemma NothingLost(turns: seq<Turn>)
    ensures Arrived(turns[..0]) == [] && Backlog(turns[..0]) == 0 && Subsequence([], [])
  {
  }

  lemma OneTurn(turns: seq<Turn>, i: nat, got: seq<Byte>, more: seq<Byte>)
    requires i < |turns| && Subsequence(got, Arrived(turns[..i])) && Subsequence(more, BytesOf(turns[i]))
    ensures Arrived(turns[..i + 1]) == Arrived(turns[..i]) + BytesOf(turns[i])
    ensures Subsequence(got + more, Arrived(turns[..i + 1]))
    ensures Backlog(turns[..i + 1]) == 2 * |BytesOf(turns[i])| +
              if turns[i].Poll? && Backlog(turns[..i]) > 0 then Backlog(turns[..i]) - 1 else Backlog(turns[..i])
  {
    hide BytesOf;
    assert turns[..i + 1][..i] == turns[..i];
    BothKept(got, Arrived(turns[..i]), more, BytesOf(turns[i]));
  }

  lemma {:induction false} BothKept(s: seq<Byte>, t: seq<Byte>, u: seq<Byte>, v: seq<Byte>)
    requires Subsequence(s, t) && Subsequence(u, v)
    ensures Subsequence(s + u, t + v)
    decreases |v|
  {
    if v == [] {
      assert s + u == s && t + v == t;
    } else {
      var n, w := |v| - 1, v[..|v| - 1];
      assert (t + v)[..|t + v| - 1] == t + w;
      if Subsequence(u, w) {
        BothKept(s, t, u, w);
      } else {
        BothKept(s, t, u[..|u| - 1], w);
        assert (s + u)[..|s + u| - 1] == s + u[..|u| - 1];
      }
    }
  }

  /** A whole session: a schedule, and then the rest of the work.  When the calls
      keep up, what is reported is what the arrived bytes mean; for the bytes of
      the keys es that is exactly es. */
  method Session(keyboard: Keyboard, turns: seq<Turn>)
    requires keyboard.Valid() && keyboard.state == Reset
    modifies keyboard, keyboard.scancodes, keyboard.driver, keyboard.driver.queue
    ensures keyboard.Valid() && keyboard.driver.Contents() == []
    ensures KeepsUp(turns) ==> keyboard.emitted == Events(START, Arrived(turns))
    ensures KeepsUp(turns) ==>
      forall es :: AllEncodable(es) && EncodeAll(es) == Arrived(turns) ==> keyboard.emitted == AllDecoded(es)
  {
    hide Events;
    hide After;
    hide EncodeAll;
    hide AllDecoded;
    hide Encodable;
    hide KeepsUp;
    hide Arrived;
    ghost var got := Run(keyboard, turns);
    var calls := CatchUp(keyboard);
    forall es | AllEncodable(es) && EncodeAll(es) == Arrived(turns)
      ensures KeepsUp(turns) ==> keyboard.emitted == AllDecoded(es)
    {
      DecoderInvertsEncoder(START, es);
    }
  }

  /** keyboard_task catches up: when no more bytes arrive, two calls a byte are
      enough to empty the queue and report everything in it. */
  method CatchUp(keyboard: Keyboard) returns (calls: nat)
    requires keyboard.Valid() && keyboard.state != Reset
    modifies keyboard, keyboard.scancodes, keyboard.driver, keyboard.driver.queue
    ensures keyboard.Valid() && keyboard.driver.Contents() == []
    ensures keyboard.state == WaitScan || keyboard.state == ReadMore
    ensures keyboard.driver.accepted == old(keyboard.driver.accepted)
    ensures keyboard.emitted == Events(START, keyboard.driver.accepted)
    ensures calls <= 2 * old(keyboard.driver.size) + 1
  {
    hide Events;
    hide After;
    hide Feed;
    hide Translation;
    calls := 0;
    while keyboard.driver.size > 0 || keyboard.state == Translate
      invariant keyboard.Valid() && keyboard.state != Reset
      invariant keyboard.driver.accepted == old(keyboard.driver.accepted)
      invariant calls + Work(keyboard.driver.size, keyboard.state) <= 2 * old(keyboard.driver.size) + 1
      decreases Work(keyboard.driver.size, keyboard.state)
    {
      assert |keyboard.driver.accepted| == |keyboard.driver.delivered| + keyboard.driver.size;
      ghost var got := keyboard.Task([]);
      assert |keyboard.driver.accepted| == |keyboard.driver.delivered| + keyboard.driver.size;
      calls := calls + 1;
    }
    assert keyboard.driver.accepted == keyboard.driver.delivered + keyboard.driver.Contents();
    assert keyboard.driver.accepted == keyboard.driver.delivered;
  }

  /** Calls of keyboard_task that the queue and a due translation ask for. */
  ghost function Work(size: nat, state: State): nat {
    2 * size + if state == Translate then 1 else 0
  }

  ghost predicate AllEncodable(es: seq<KeyEvent>) {
    forall i :: 0 <= i < |es| ==> Encodable(es[i])
  }

  /** What is reported after the first bytes of the keys es were read. */
  lemma Reported(es: seq<KeyEvent>, delivered: seq<Byte>, decoder: Kbd, emitted: seq<Decoded>)
    requires AllEncodable(es) && delivered <= EncodeAll(es)
    requires Inv(decoder) && emitted + Pending(decoder) == Events(START, delivered)
    ensures emitted <= AllDecoded(es)
    ensures delivered == EncodeAll(es) && decoder.state != Translate ==> emitted == AllDecoded(es)
  {
    hide Events;
    hide After;
    hide EncodeAll;
    hide AllDecoded;
    hide Translation;
    hide Encodable;
    var rest := EncodeAll(es)[|delivered|..];
    assert EncodeAll(es) == delivered + rest;
    EventsSplit(START, delivered, rest);
    DecoderInvertsEncoder(START, es);
  }
}
