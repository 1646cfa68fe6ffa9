/** The scan code set 2 decoder as a state machine, and the encoder that it
    inverts (kernel/drivers/keyboard.c). */
module ScanDecoder {
  import opened Keycodes
  import opened Ps2Driver

  datatype State = Reset | WaitScan | ReadMore | Translate

  // keyboard state: kbd_state, the first len scan codes and need of kbd_seq
  datatype Kbd = Kbd(state: State, codes: seq<Byte>, need: nat)

  datatype Decoded = Decoded(key: Lookup, pressed: bool)

  /** What the state machine keeps on any byte stream: there is room in the
      eight-byte sequence, and the lengths that are translated are known ones. */
  predicate Inv(k: Kbd) {
    match k.state
    case Reset => true
    case WaitScan => true
    case ReadMore => k.need >= 1 && |k.codes| >= 1 && |k.codes| + k.need in {2, 3, 4, 6, 8}
    case Translate => |k.codes| in {1, 2, 3, 4, 6, 8}
  }

  /** keyboard_state_wait_scan and keyboard_state_read_more on one byte. */
  function Feed(k: Kbd, b: Byte): Kbd
    requires k.state == WaitScan || (k.state == ReadMore && k.need >= 1)
  {
    if k.state == WaitScan then
      if b == 0xe0 || b == 0xf0 then Kbd(ReadMore, [b], 1)
      else if b == 0xe1 then Kbd(ReadMore, [b], 7)
      else Kbd(Translate, [b], k.need)
    else
      var codes := k.codes + [b];
      var need :=
        if |codes| == 2 && codes[0] == 0xe0 then
          if codes[1] == 0x12 then 2 else if codes[1] == 0xf0 then 1 else k.need - 1
        else if |codes| == 3 && codes[2] == 0x7c then 3
        else k.need - 1;
      Kbd(if need == 0 then Translate else ReadMore, codes, need)
  }

  lemma FeedKeepsInv(k: Kbd, b: Byte)
    requires Inv(k) && (k.state == WaitScan || k.state == ReadMore)
    ensures Inv(Feed(k, b))
    ensures |Feed(k, b).codes| <= 8
  {
  }

  /** keyboard_state_translate. */
  function Translation(codes: seq<Byte>): Decoded
    requires |codes| >= 1
  {
    if |codes| == 1 then Decoded(ScanToKey(codes[0]), true)
    else if |codes| == 2 then
      if codes[0] == 0xe0 then Decoded(Key(Scan2BytesToKey(codes[1])), true)
      else Decoded(ScanToKey(codes[1]), false)
    else if |codes| == 3 then Decoded(Key(Scan2BytesToKey(codes[2])), false)
    else if |codes| == 4 then Decoded(Key(KeyPrntScrn), true)
    else if |codes| == 6 then Decoded(Key(KeyPrntScrn), false)
    else if |codes| == 8 then Decoded(Key(KeyPause), true)
    else Decoded(Key(KeyUnk), true)
  }

  /** The state once a pending translation is done. */
  function Settle(k: Kbd): Kbd {
    if k.state == Translate then k.(state := WaitScan) else k
  }

  function Pending(k: Kbd): seq<Decoded>
    requires Inv(k)
  {
    if k.state == Translate then [Translation(k.codes)] else []
  }

  /** State after all of a byte stream, every translation done. */
  function After(k: Kbd, bytes: seq<Byte>): (r: Kbd)
    requires Inv(k) && k.state != Reset
    ensures Inv(r) && (r.state == WaitScan || r.state == ReadMore)
    decreases |bytes|
  {
    var s := Settle(k);
    if bytes == [] then s
    else
      FeedKeepsInv(s, bytes[0]);
      After(Feed(s, bytes[0]), bytes[1..])
  }

  /** The events of a byte stream. */
  function Events(k: Kbd, bytes: seq<Byte>): seq<Decoded>
    requires Inv(k) && k.state != Reset
    decreases |bytes|
  {
    var s := Settle(k);
    Pending(k) +
    if bytes == [] then []
    else
      FeedKeepsInv(s, bytes[0]);
      Events(Feed(s, bytes[0]), bytes[1..])
  }

  lemma SettledFirst(k: Kbd, b: seq<Byte>)
    requires Inv(k) && k.state != Reset
    ensures After(Settle(k), b) == After(k, b)
    ensures Events(k, b) == Pending(k) + Events(Settle(k), b)
    ensures After(k, []) == Settle(k) && Events(k, []) == Pending(k)
  {
    hide Feed;
    hide Translation;
  }

  /** One byte, and the rest of the stream from the state that it leads to. */
  lemma Step(k: Kbd, b: Byte, rest: seq<Byte>)
    requires Inv(k) && k.state != Reset
    ensures Inv(Feed(Settle(k), b)) && Feed(Settle(k), b).state != Reset
    ensures After(k, [b] + rest) == After(Feed(Settle(k), b), rest)
    ensures Events(k, [b] + rest) == Pending(k) + Events(Feed(Settle(k), b), rest)
  {
    FeedKeepsInv(Settle(k), b);
    assert ([b] + rest)[1..] == rest;
    hide Feed;
    hide Translation;
  }

  /** A stream can be cut anywhere: the decoder carries everything in its state. */
  lemma {:induction false} EventsSplit(k: Kbd, a: seq<Byte>, b: seq<Byte>)
    requires Inv(k) && k.state != Reset
    ensures After(k, a + b) == After(After(k, a), b)
    ensures Events(k, a + b) == Events(k, a) + Events(After(k, a), b)
    decreases |a|
  {
    hide Feed;
    hide Translation;
    hide Pending;
    hide Events;
    hide After;
    if a == [] {
      assert a + b == b;
      SettledFirst(k, b);
    } else {
      var rest := a[1..];
      assert a == [a[0]] + rest && a + b == [a[0]] + (rest + b);
      Step(k, a[0], rest);
      Step(k, a[0], rest + b);
      var next := Feed(Settle(k), a[0]);
      EventsSplit(next, rest, b);
      calc {
        Events(k, a + b);
        Pending(k) + Events(next, rest + b);
        Pending(k) + (Events(next, rest) + Events(After(next, rest), b));
        (Pending(k) + Events(next, rest)) + Events(After(next, rest), b);
        Events(k, a) + Events(After(k, a), b);
      }
    }
  }

  // --------------------------------------------------------------------------
  // The encoder

  datatype KeyEvent = KeyEvent(kc: Keycode, pressed: bool)

  /** The key exists on the keyboard; Pause has no release code. */
  predicate Encodable(e: KeyEvent) {
    match SetTwo(e.kc)
    case NoCode => false
    case Pause => e.pressed
    case _ => true
  }

  /** Scan code set 2. */
  function Encode(e: KeyEvent): seq<Byte>
    requires Encodable(e)
  {
    match SetTwo(e.kc)
    case OneByte(c) => if e.pressed then [c] else [0xf0, c]
    case AfterE0(x) => if e.pressed then [0xe0, x] else [0xe0, 0xf0, x]
    case PrintScreen => if e.pressed then [0xe0, 0x12, 0xe0, 0x7c] else [0xe0, 0xf0, 0x7c, 0xe0, 0xf0, 0x12]
    case Pause => [0xe1, 0x14, 0x77, 0xe1, 0xf0, 0x14, 0xf0, 0x77]
  }

  function EncodeAll(es: seq<KeyEvent>): seq<Byte>
    requires forall i :: 0 <= i < |es| ==> Encodable(es[i])
  {
    if es == [] then [] else Encode(es[0]) + EncodeAll(es[1..])
  }

  function AsDecoded(e: KeyEvent): Decoded {
    Decoded(Key(e.kc), e.pressed)
  }

  function AllDecoded(es: seq<KeyEvent>): (ds: seq<Decoded>)
    ensures |ds| == |es|
  {
    seq(|es|, i requires 0 <= i < |es| => AsDecoded(es[i]))
  }

  // --------------------------------------------------------------------------
  // The decoder inverts the encoder

  /** What a stream gives when nothing is translated before its last byte. */
  lemma {:induction false} LastByteTranslates(k: Kbd, bytes: seq<Byte>, end: Kbd)
    requires Inv(k) && (k.state == WaitScan || k.state == ReadMore) && bytes != []
    requires FedQuietly(k, bytes, end) && end.codes != []
    ensures Inv(end) && After(k, bytes) == end.(state := WaitScan)
    ensures Events(k, bytes) == [Translation(end.codes)]
    decreases |bytes|
  {
    hide Translation;
    FeedKeepsInv(k, bytes[0]);
    var next, rest := Feed(k, bytes[0]), bytes[1..];
    Step(k, bytes[0], rest);
    assert bytes == [bytes[0]] + rest;
    hide Feed;
    if rest != [] {
      LastByteTranslates(next, rest, end);
    }
  }

  /** bytes lead from k to end, and only the last one completes a sequence. */
  ghost predicate FedQuietly(k: Kbd, bytes: seq<Byte>, end: Kbd)
    requires k.state == WaitScan || (k.state == ReadMore && k.need >= 1)
    decreases |bytes|
  {
    bytes != [] &&
      var next := Feed(k, bytes[0]);
      if |bytes| == 1 then next == end && end.state == Translate
      else next.state == ReadMore && next.need >= 1 && FedQuietly(next, bytes[1..], end)
  }

  lemma Fed(k: Kbd, b: Byte, rest: seq<Byte>, end: Kbd)
    requires k.state == WaitScan || (k.state == ReadMore && k.need >= 1)
    requires rest != [] && Feed(k, b).state == ReadMore && Feed(k, b).need >= 1 && FedQuietly(Feed(k, b), rest, end)
    ensures FedQuietly(k, [b] + rest, end)
  {
    assert ([b] + rest)[1..] == rest;
  }

  /** The code of a key with a one-byte code is never a prefix byte. */
  lemma DecodeOneByte(k: Kbd, c: Byte)
    requires k.state == WaitScan && c < NB_SCANS
    ensures Events(k, [c]) == [Decoded(ScanToKey(c), true)] && After(k, [c]).state == WaitScan
    ensures Events(k, [0xf0, c]) == [Decoded(ScanToKey(c), false)] && After(k, [0xf0, c]).state == WaitScan
  {
    hide ScanToKey;
    LastByteTranslates(k, [c], Feed(k, c));
    var k1 := Feed(k, 0xf0);
    Fed(k, 0xf0, [c], Feed(k1, c));
    LastByteTranslates(k, [0xf0, c], Feed(k1, c));
  }

  lemma DecodePressed(k: Kbd, x: Byte)
    requires k.state == WaitScan && x !in {0x12, 0xf0}
    ensures Events(k, [0xe0, x]) == [Decoded(Key(Scan2BytesToKey(x)), true)] && After(k, [0xe0, x]).state == WaitScan
  {
    hide Scan2BytesToKey;
    var k1 := Feed(k, 0xe0);
    Fed(k, 0xe0, [x], Feed(k1, x));
    LastByteTranslates(k, [0xe0, x], Feed(k1, x));
  }

  lemma DecodeReleased(k: Kbd, x: Byte)
    requires k.state == WaitScan && x != 0x7c
    ensures Events(k, [0xe0, 0xf0, x]) == [Decoded(Key(Scan2BytesToKey(x)), false)]
    ensures After(k, [0xe0, 0xf0, x]).state == WaitScan
  {
    hide Scan2BytesToKey;
    var k1 := Feed(k, 0xe0);
    var k2 := Feed(k1, 0xf0);
    Fed(k1, 0xf0, [x], Feed(k2, x));
    Fed(k, 0xe0, [0xf0, x], Feed(k2, x));
    LastByteTranslates(k, [0xe0, 0xf0, x], Feed(k2, x));
  }

  lemma DecodeExtended(k: Kbd, x: Byte)
    requires k.state == WaitScan && Scan2BytesToKey(x) != KeyUnk
    ensures Events(k, [0xe0, x]) == [Decoded(Key(Scan2BytesToKey(x)), true)] && After(k, [0xe0, x]).state == WaitScan
    ensures Events(k, [0xe0, 0xf0, x]) == [Decoded(Key(Scan2BytesToKey(x)), false)]
    ensures After(k, [0xe0, 0xf0, x]).state == WaitScan
  {
    hide Events;
    hide After;
    assert x !in {0x12, 0xf0, 0x7c};
    DecodePressed(k, x);
    DecodeReleased(k, x);
  }

  /** From the third byte on, the rest of a sequence is only counted down. */
  lemma {:induction false} CountDown(k: Kbd, rest: seq<Byte>)
    requires k.state == ReadMore && |k.codes| >= 3 && k.need == |rest| >= 1
    ensures FedQuietly(k, rest, Kbd(Translate, k.codes + rest, 0))
    decreases |rest|
  {
    var next := Feed(k, rest[0]);
    assert k.codes + rest == next.codes + rest[1..];
    if |rest| > 1 {
      CountDown(next, rest[1..]);
    }
  }

  /** A sequence whose first three bytes are x, y, z and leave rest to come. */
  lemma DecodeLong(k: Kbd, x: Byte, y: Byte, z: Byte, rest: seq<Byte>)
    requires Inv(k) && k.state == WaitScan && rest != []
    requires x in {0xe0, 0xe1}
    requires var k2 := Feed(Feed(k, x), y);
      k2.state == ReadMore && k2.need >= 1 && Feed(k2, z) == Kbd(ReadMore, [x, y, z], |rest|)
    ensures Events(k, [x, y, z] + rest) == [Translation([x, y, z] + rest)]
    ensures After(k, [x, y, z] + rest).state == WaitScan
  {
    hide Translation;
    var k1 := Feed(k, x);
    var k2 := Feed(k1, y);
    var k3 := Feed(k2, z);
    var end := Kbd(Translate, [x, y, z] + rest, 0);
    CountDown(k3, rest);
    Fed(k2, z, rest, end);
    Fed(k1, y, [z] + rest, end);
    Fed(k, x, [y] + ([z] + rest), end);
    assert [x] + ([y] + ([z] + rest)) == [x, y, z] + rest;
    LastByteTranslates(k, [x, y, z] + rest, end);
  }

  // Print Screen and Pause change the length that the decoder waits for as they
  // are read: 4, 6 and 8 bytes in the end.
  lemma DecodePrintScreen(k: Kbd)
    requires k.state == WaitScan
    ensures Events(k, [0xe0, 0x12, 0xe0, 0x7c]) == [Decoded(Key(KeyPrntScrn), true)]
    ensures After(k, [0xe0, 0x12, 0xe0, 0x7c]).state == WaitScan
    ensures Events(k, [0xe0, 0xf0, 0x7c, 0xe0, 0xf0, 0x12]) == [Decoded(Key(KeyPrntScrn), false)]
    ensures After(k, [0xe0, 0xf0, 0x7c, 0xe0, 0xf0, 0x12]).state == WaitScan
  {
    hide Events;
    hide After;
    assert [0xe0, 0x12, 0xe0] + [0x7c] == [0xe0, 0x12, 0xe0, 0x7c];
    DecodeLong(k, 0xe0, 0x12, 0xe0, [0x7c]);
    assert [0xe0, 0xf0, 0x7c] + [0xe0, 0xf0, 0x12] == [0xe0, 0xf0, 0x7c, 0xe0, 0xf0, 0x12];
    DecodeLong(k, 0xe0, 0xf0, 0x7c, [0xe0, 0xf0, 0x12]);
  }

  lemma DecodePause(k: Kbd)
    requires k.state == WaitScan
    ensures Events(k, [0xe1, 0x14, 0x77, 0xe1, 0xf0, 0x14, 0xf0, 0x77]) == [Decoded(Key(KeyPause), true)]
    ensures After(k, [0xe1, 0x14, 0x77, 0xe1, 0xf0, 0x14, 0xf0, 0x77]).state == WaitScan
  {
    hide Events;
    hide After;
    assert [0xe1, 0x14, 0x77] + [0xe1, 0xf0, 0x14, 0xf0, 0x77] == [0xe1, 0x14, 0x77, 0xe1, 0xf0, 0x14, 0xf0, 0x77];
    DecodeLong(k, 0xe1, 0x14, 0x77, [0xe1, 0xf0, 0x14, 0xf0, 0x77]);
  }

  lemma DecodeOne(k: Kbd, e: KeyEvent)
    requires k.state == WaitScan && Encodable(e)
    ensures Events(k, Encode(e)) == [AsDecoded(e)] && After(k, Encode(e)).state == WaitScan
  {
    hide Feed;
    hide Translation;
    hide Events;
    hide After;
    hide SetTwo;
    hide ScanToKey;
    hide Scan2BytesToKey;
    CodeAgrees(e.kc);
    match SetTwo(e.kc) {
      case OneByte(c) => DecodeOneByte(k, c);
      case AfterE0(x) => DecodeExtended(k, x);
      case PrintScreen => DecodePrintScreen(k);
      case Pause => DecodePause(k);
    }
  }

  /** A byte that is the code of no key is reported as an unknown key, pressed or
      released; so is one after 0xe0, but for the bytes that begin longer
      sequences. */
  lemma OtherCodesUnknown(k: Kbd, b: Byte)
    requires k.state == WaitScan
    ensures b < NB_SCANS && (forall kc :: SetTwo(kc) != OneByte(b)) ==>
      && Events(k, [b]) == [Decoded(Key(KeyUnk), true)] && Events(k, [0xf0, b]) == [Decoded(Key(KeyUnk), false)]
    ensures b !in {0x12, 0xf0} && (forall kc :: SetTwo(kc) != AfterE0(b)) ==>
      Events(k, [0xe0, b]) == [Decoded(Key(KeyUnk), true)]
    ensures b != 0x7c && (forall kc :: SetTwo(kc) != AfterE0(b)) ==>
      Events(k, [0xe0, 0xf0, b]) == [Decoded(Key(KeyUnk), false)]
  {
    hide SetTwo;
    hide ScanToKey;
    hide Events;
    OneByteAgrees(b);
    AfterE0Agrees(b);
    if b < NB_SCANS {
      DecodeOneByte(k, b);
    }
    if b !in {0x12, 0xf0} {
      DecodePressed(k, b);
    }
    if b != 0x7c {
      DecodeReleased(k, b);
    }
  }

  lemma DecodeFirst(k: Kbd, e: KeyEvent, more: seq<Byte>)
    requires k.state == WaitScan && Encodable(e)
    ensures Inv(After(k, Encode(e))) && After(k, Encode(e)).state == WaitScan
    ensures Events(k, Encode(e) + more) == [AsDecoded(e)] + Events(After(k, Encode(e)), more)
    ensures After(k, Encode(e) + more) == After(After(k, Encode(e)), more)
  {
    hide Events;
    hide After;
    hide Encode;
    hide Encodable;
    DecodeOne(k, e);
    EventsSplit(k, Encode(e), more);
  }

  lemma AllDecodedFirst(es: seq<KeyEvent>)
    ensures AllDecoded(es) == if es == [] then [] else [AsDecoded(es[0])] + AllDecoded(es[1..])
  {
  }

  /** Main result: whatever was pressed and released, in whatever order, the
      decoder reports exactly that and ends up waiting for the next scan code. */
  lemma {:induction false} DecoderInvertsEncoder(k: Kbd, es: seq<KeyEvent>)
    requires k.state == WaitScan
    requires forall i :: 0 <= i < |es| ==> Encodable(es[i])
    ensures Events(k, EncodeAll(es)) == AllDecoded(es) && After(k, EncodeAll(es)).state == WaitScan
    decreases |es|
  {
    AllDecodedFirst(es);
    if es != [] {
      hide Encode;
      hide Encodable;
      hide Events;
      hide After;
      hide AsDecoded;
      hide AllDecoded;
      DecodeFirst(k, es[0], EncodeAll(es[1..]));
      DecoderInvertsEncoder(After(k, Encode(es[0])), es[1..]);
    }
  }

  /** So two different histories never look the same on the wire. */
  lemma EncodingIsUnique(es: seq<KeyEvent>, fs: seq<KeyEvent>)
    requires forall i :: 0 <= i < |es| ==> Encodable(es[i])
    requires forall i :: 0 <= i < |fs| ==> Encodable(fs[i])
    requires EncodeAll(es) == EncodeAll(fs)
    ensures es == fs
  {
    var k := Kbd(WaitScan, [], 0);
    DecoderInvertsEncoder(k, es);
    DecoderInvertsEncoder(k, fs);
    assert |es| == |AllDecoded(es)| == |fs|;
    forall i | 0 <= i < |es|
      ensures es[i] == fs[i]
    {
      assert AllDecoded(es)[i] == AllDecoded(fs)[i];
    }
  }

  /** The table of one-byte codes is read outside its bounds exactly when the
      byte to look up, the first or the one after 0xf0, is beyond its end. */
  lemma OutsideTable(codes: seq<Byte>)
    requires codes != []
    ensures Translation(codes).key == OutOfTable <==>
            (|codes| == 1 && codes[0] >= 136) || (|codes| == 2 && codes[0] != 0xe0 && codes[1] >= 136)
  {
    hide Scan2BytesToKey;
  }
}
