/** Key codes and the scan codes of set 2: the tables of the decoder, by code, and
    the codes of the keyboard, by key (kernel/drivers/keyboard.c:131-202, 447-471). */
module Keycodes {
  datatype Keycode =
    KeyUnk | KeyA | KeyB | KeyC | KeyD | KeyE | KeyF | KeyG | KeyH | KeyI | KeyJ | KeyK | KeyL | KeyM | KeyN |
    KeyO | KeyP | KeyQ | KeyR | KeyS | KeyT | KeyU | KeyV | KeyW | KeyX | KeyY | KeyZ | Key0 | Key1 | Key2 | Key3 |
    Key4 | Key5 | Key6 | Key7 | Key8 | Key9 | KeyBkquote | KeyHypen | KeyEqual | KeyBkslash | KeyLbracket |
    KeyRbracket | KeySemicolon | KeySquote | KeyComma | KeyDot | KeySlash | KeyBksp | KeySpace | KeyTab | KeyCaps |
    KeyLshift | KeyLctrl | KeyLalt | KeyEnter | KeyEsc | KeyScroll | KeyNum | KeyLt | KeyRshift | KeyF1 | KeyF2 |
    KeyF3 | KeyF4 | KeyF5 | KeyF6 | KeyF7 | KeyF8 | KeyF9 | KeyF10 | KeyF11 | KeyF12 | KeyKpStar | KeyKpHyphen |
    KeyKpMinus | KeyKpPlus | KeyKpDot | KeyKp0 | KeyKp1 | KeyKp2 | KeyKp3 | KeyKp4 | KeyKp5 | KeyKp6 | KeyKp7 |
    KeyKp8 | KeyKp9 | KeyLgui | KeyRctrl | KeyRgui | KeyRalt | KeyApps | KeyInsert | KeyHome | KeyPgup | KeyDel |
    KeyEnd | KeyPgdown | KeyUp | KeyLeft | KeyDown | KeyRight | KeyKpDiv | KeyKpEn | KeyPrntScrn | KeyPause

  // scan_to_key: the one-byte codes, eight to a row.
  const SCAN_TO_KEY: seq<seq<Keycode>> := [
    [KeyUnk, KeyF9, KeyUnk, KeyF5, KeyF3, KeyF1, KeyF2, KeyF12],  // 0x00
    [KeyUnk, KeyF10, KeyF8, KeyF6, KeyF4, KeyTab, KeyBkquote, KeyUnk],  // 0x08
    [KeyUnk, KeyLalt, KeyLshift, KeyUnk, KeyLctrl, KeyQ, Key1, KeyUnk],  // 0x10
    [KeyUnk, KeyUnk, KeyZ, KeyS, KeyA, KeyW, Key2, KeyUnk],  // 0x18
    [KeyUnk, KeyC, KeyX, KeyD, KeyE, Key4, Key3, KeyUnk],  // 0x20
    [KeyUnk, KeySpace, KeyV, KeyF, KeyT, KeyR, Key5, KeyUnk],  // 0x28
    [KeyUnk, KeyN, KeyB, KeyH, KeyG, KeyY, Key6, KeyUnk],  // 0x30
    [KeyUnk, KeyUnk, KeyM, KeyJ, KeyU, Key7, Key8, KeyUnk],  // 0x38
    [KeyUnk, KeyComma, KeyK, KeyI, KeyO, Key0, Key9, KeyUnk],  // 0x40
    [KeyUnk, KeyDot, KeySlash, KeyL, KeySemicolon, KeyP, KeyHypen, KeyUnk],  // 0x48
    [KeyUnk, KeyUnk, KeySquote, KeyUnk, KeyLbracket, KeyEqual, KeyUnk, KeyUnk],  // 0x50
    [KeyCaps, KeyRshift, KeyEnter, KeyRbracket, KeyUnk, KeyBkslash, KeyUnk, KeyUnk],  // 0x58
    [KeyUnk, KeyLt, KeyUnk, KeyUnk, KeyUnk, KeyUnk, KeyBksp, KeyUnk],  // 0x60
    [KeyUnk, KeyKp1, KeyUnk, KeyKp4, KeyKp7, KeyUnk, KeyUnk, KeyUnk],  // 0x68
    [KeyKp0, KeyKpDot, KeyKp2, KeyKp5, KeyKp6, KeyKp8, KeyEsc, KeyNum],  // 0x70
    [KeyF11, KeyKpPlus, KeyKp3, KeyKpHyphen, KeyKpStar, KeyKp9, KeyScroll, KeyUnk],  // 0x78
    [KeyUnk, KeyUnk, KeyUnk, KeyF7, KeyUnk, KeyUnk, KeyUnk, KeyUnk]  // 0x80
  ]

  const NB_SCANS: nat := 136

  lemma RowOfEight(r: nat)
    requires r < |SCAN_TO_KEY|
    ensures |SCAN_TO_KEY| * 8 == NB_SCANS && |SCAN_TO_KEY[r]| == 8
  {
  }

  // What reading the table gives: the source does not check the index.
  datatype Lookup = Key(kc: Keycode) | OutOfTable

  function ScanToKey(scan: nat): (r: Lookup)
    ensures r == OutOfTable <==> scan >= NB_SCANS
  {
    if scan < NB_SCANS then
      RowOfEight(scan / 8);
      Key(SCAN_TO_KEY[scan / 8][scan % 8])
    else OutOfTable
  }

  /** scan_2bytes_to_key: the codes after 0xe0. */
  function Scan2BytesToKey(scan: nat): Keycode {
    match scan
    case 0x1f => KeyLgui
    case 0x14 => KeyRctrl
    case 0x27 => KeyRgui
    case 0x11 => KeyRalt
    case 0x2f => KeyApps
    case 0x70 => KeyInsert
    case 0x6c => KeyHome
    case 0x7d => KeyPgup
    case 0x71 => KeyDel
    case 0x69 => KeyEnd
    case 0x7a => KeyPgdown
    case 0x75 => KeyUp
    case 0x6b => KeyLeft
    case 0x72 => KeyDown
    case 0x74 => KeyRight
    case 0x4a => KeyKpDiv
    case 0x5a => KeyKpEn
    case _ => KeyUnk
  }

  type Scan = c: nat | c < 0x100

  // How a key is coded: one byte, a byte after 0xe0, or a sequence of its own.
  datatype Code = OneByte(c: Scan) | AfterE0(x: Scan) | PrintScreen | Pause | NoCode

  /** Scan code set 2, key by key.  KEY_KP_MINUS is a second name for the minus
      of the keypad, which no code stands for. */
  function SetTwo(kc: Keycode): Code {
    match kc
    case KeyUnk => NoCode
    case KeyKpMinus => NoCode
    case KeyPrntScrn => PrintScreen
    case KeyPause => Pause
    case KeyF1 => OneByte(0x05) case KeyF2 => OneByte(0x06) case KeyF3 => OneByte(0x04) case KeyF4 => OneByte(0x0c)
    case KeyF5 => OneByte(0x03) case KeyF6 => OneByte(0x0b) case KeyF7 => OneByte(0x83) case KeyF8 => OneByte(0x0a)
    case KeyF9 => OneByte(0x01) case KeyF10 => OneByte(0x09) case KeyF11 => OneByte(0x78)
    case KeyF12 => OneByte(0x07) case KeyKpStar => OneByte(0x7c) case KeyKpHyphen => OneByte(0x7b)
    case KeyKpPlus => OneByte(0x79) case KeyKpDot => OneByte(0x71) case KeyKp0 => OneByte(0x70)
    case KeyKp1 => OneByte(0x69) case KeyKp2 => OneByte(0x72) case KeyKp3 => OneByte(0x7a)
    case KeyKp4 => OneByte(0x6b) case KeyKp5 => OneByte(0x73) case KeyKp6 => OneByte(0x74)
    case KeyKp7 => OneByte(0x6c) case KeyKp8 => OneByte(0x75) case KeyKp9 => OneByte(0x7d) case KeyA => OneByte(0x1c)
    case KeyB => OneByte(0x32) case KeyC => OneByte(0x21) case KeyD => OneByte(0x23) case KeyE => OneByte(0x24)
    case KeyF => OneByte(0x2b) case KeyG => OneByte(0x34) case KeyH => OneByte(0x33) case KeyI => OneByte(0x43)
    case KeyJ => OneByte(0x3b) case KeyK => OneByte(0x42) case KeyL => OneByte(0x4b) case KeyM => OneByte(0x3a)
    case KeyN => OneByte(0x31) case KeyO => OneByte(0x44) case KeyP => OneByte(0x4d) case KeyQ => OneByte(0x15)
    case KeyR => OneByte(0x2d) case KeyS => OneByte(0x1b) case KeyT => OneByte(0x2c) case KeyU => OneByte(0x3c)
    case KeyV => OneByte(0x2a) case KeyW => OneByte(0x1d) case KeyX => OneByte(0x22) case KeyY => OneByte(0x35)
    case KeyZ => OneByte(0x1a) case Key0 => OneByte(0x45) case Key1 => OneByte(0x16) case Key2 => OneByte(0x1e)
    case Key3 => OneByte(0x26) case Key4 => OneByte(0x25) case Key5 => OneByte(0x2e) case Key6 => OneByte(0x36)
    case Key7 => OneByte(0x3d) case Key8 => OneByte(0x3e) case Key9 => OneByte(0x46) case KeyBkquote => OneByte(0x0e)
    case KeyHypen => OneByte(0x4e) case KeyEqual => OneByte(0x55) case KeyBkslash => OneByte(0x5d)
    case KeyLbracket => OneByte(0x54) case KeyRbracket => OneByte(0x5b) case KeySemicolon => OneByte(0x4c)
    case KeySquote => OneByte(0x52) case KeyComma => OneByte(0x41) case KeyDot => OneByte(0x49)
    case KeySlash => OneByte(0x4a) case KeyLt => OneByte(0x61) case KeyBksp => OneByte(0x66)
    case KeySpace => OneByte(0x29) case KeyTab => OneByte(0x0d) case KeyCaps => OneByte(0x58)
    case KeyLshift => OneByte(0x12) case KeyLctrl => OneByte(0x14) case KeyLalt => OneByte(0x11)
    case KeyEnter => OneByte(0x5a) case KeyEsc => OneByte(0x76) case KeyScroll => OneByte(0x7e)
    case KeyNum => OneByte(0x77) case KeyRshift => OneByte(0x59) case KeyLgui => AfterE0(0x1f)
    case KeyRctrl => AfterE0(0x14) case KeyRgui => AfterE0(0x27) case KeyRalt => AfterE0(0x11)
    case KeyApps => AfterE0(0x2f) case KeyInsert => AfterE0(0x70) case KeyHome => AfterE0(0x6c)
    case KeyPgup => AfterE0(0x7d) case KeyDel => AfterE0(0x71) case KeyEnd => AfterE0(0x69)
    case KeyPgdown => AfterE0(0x7a) case KeyUp => AfterE0(0x75) case KeyLeft => AfterE0(0x6b)
    case KeyDown => AfterE0(0x72) case KeyRight => AfterE0(0x74) case KeyKpDiv => AfterE0(0x4a)
    case KeyKpEn => AfterE0(0x5a)
  }

  /** The table has for that code the key that it stands for, if any. */
  predicate NamesCode(scan: nat) {
    match ScanToKey(scan)
    case OutOfTable => true
    case Key(kc) => kc == KeyUnk || (SetTwo(kc).OneByte? && SetTwo(kc).c == scan)
  }

  /** Every code in the table is the one of its key, so a byte that is the code
      of no key reads as unknown. */
  lemma OneByteAgrees(scan: nat)
    ensures NamesCode(scan)
  {
    hide SetTwo;
    if scan < 0x08 {
      Scans00(scan);
    } else if scan < 0x10 {
      Scans08(scan);
    } else if scan < 0x20 {
      Scans10(scan);
    } else if scan < 0x30 {
      Scans20(scan);
    } else if scan < 0x40 {
      Scans30(scan);
    } else if scan < 0x50 {
      Scans40(scan);
    } else if scan < 0x60 {
      Scans50(scan);
    } else if scan < 0x70 {
      Scans60(scan);
    } else if scan < 0x74 {
      Scans70(scan);
    } else if scan < 0x78 {
      Scans74(scan);
    } else if scan < 0x7c {
      Scans78(scan);
    } else if scan < 0x80 {
      Scans7c(scan);
    } else if scan < NB_SCANS {
      Scans80(scan);
    }
  }

  lemma Scans00(scan: nat)
    requires 0x00 <= scan < 0x08
    ensures NamesCode(scan)
  {
  }

  lemma Scans08(scan: nat)
    requires 0x08 <= scan < 0x10
    ensures NamesCode(scan)
  {
  }

  lemma Scans10(scan: nat)
    requires 0x10 <= scan < 0x20
    ensures NamesCode(scan)
  {
    match scan / 8 {
      case 2 => case 3 =>
    }
  }

  lemma Scans20(scan: nat)
    requires 0x20 <= scan < 0x30
    ensures NamesCode(scan)
  {
    match scan / 8 {
      case 4 => case 5 =>
    }
  }

  lemma Scans30(scan: nat)
    requires 0x30 <= scan < 0x40
    ensures NamesCode(scan)
  {
    match scan / 8 {
      case 6 => case 7 =>
    }
  }

  lemma Scans40(scan: nat)
    requires 0x40 <= scan < 0x50
    ensures NamesCode(scan)
  {
    match scan / 8 {
      case 8 => case 9 =>
    }
  }

  lemma Scans50(scan: nat)
    requires 0x50 <= scan < 0x60
    ensures NamesCode(scan)
  {
    match scan / 8 {
      case 10 => case 11 =>
    }
  }

  lemma Scans60(scan: nat)
    requires 0x60 <= scan < 0x70
    ensures NamesCode(scan)
  {
    match scan / 8 {
      case 12 => case 13 =>
    }
  }

  lemma Scans70(scan: nat)
    requires 0x70 <= scan < 0x74
    ensures NamesCode(scan)
  {
  }

  lemma Scans74(scan: nat)
    requires 0x74 <= scan < 0x78
    ensures NamesCode(scan)
  {
  }

  lemma Scans78(scan: nat)
    requires 0x78 <= scan < 0x7c
    ensures NamesCode(scan)
  {
  }

  lemma Scans7c(scan: nat)
    requires 0x7c <= scan < 0x80
    ensures NamesCode(scan)
  {
  }

  lemma Scans80(scan: nat)
    requires 0x80 <= scan < 0x88
    ensures NamesCode(scan)
  {
  }

  predicate InTables(kc: Keycode) {
    match SetTwo(kc)
    case OneByte(c) => ScanToKey(c) == Key(kc) && !SpecialKey(kc)
    case AfterE0(x) => Scan2BytesToKey(x) == kc && !SpecialKey(kc)
    case PrintScreen => kc.KeyPrntScrn?
    case Pause => kc.KeyPause?
    case NoCode => kc.KeyUnk? || kc.KeyKpMinus?
  }

  /** Every key has its code in the tables, but for the two with sequences of
      their own and the two without a code. */
  lemma CodeAgrees(kc: Keycode)
    ensures SetTwo(kc).OneByte? ==> ScanToKey(SetTwo(kc).c) == Key(kc)
    ensures SetTwo(kc).AfterE0? ==> Scan2BytesToKey(SetTwo(kc).x) == kc
    ensures SetTwo(kc) == PrintScreen <==> kc == KeyPrntScrn
    ensures SetTwo(kc) == Pause <==> kc == KeyPause
    ensures SetTwo(kc) == NoCode <==> kc == KeyUnk || kc == KeyKpMinus
  {
    hide ScanToKey;
    hide Scan2BytesToKey;
    hide SetTwo;
    AllInTables(kc);
  }

  lemma AllInTables(kc: Keycode)
    ensures InTables(kc)
  {
    KeyHasKind(kc);
    hide InTables;
    if LetterKey(kc) {
      LettersAgree(kc);
    } else if SignKey(kc) {
      SignsAgree(kc);
    } else if FunctionKey(kc) {
      FunctionsAgree(kc);
    } else if ControlKey(kc) {
      ControlsAgree(kc);
    } else if KeypadKey(kc) {
      KeypadAgrees(kc);
    } else if ExtendedKey(kc) {
      ExtendedAgree(kc);
    } else {
      SpecialCodes(kc);
    }
  }

  lemma KeyHasKind(kc: Keycode)
    ensures LetterKey(kc) || SignKey(kc) || FunctionKey(kc) || ControlKey(kc) || KeypadKey(kc) || ExtendedKey(kc) ||
            SpecialKey(kc)
  {
  }

  predicate LetterKey(kc: Keycode) {
    match kc
    case
      KeyA | KeyB | KeyC | KeyD | KeyE | KeyF | KeyG | KeyH | KeyI | KeyJ | KeyK | KeyL | KeyM | KeyN | KeyO | KeyP |
      KeyQ | KeyR | KeyS | KeyT | KeyU | KeyV | KeyW | KeyX | KeyY | KeyZ => true
    case _ => false
  }

  predicate SignKey(kc: Keycode) {
    match kc
    case
      Key0 | Key1 | Key2 | Key3 | Key4 | Key5 | Key6 | Key7 | Key8 | Key9 | KeyBkquote | KeyHypen | KeyEqual |
      KeyBkslash | KeyLbracket | KeyRbracket | KeySemicolon | KeySquote | KeyComma | KeyDot | KeySlash | KeyLt => true
    case _ => false
  }

  predicate FunctionKey(kc: Keycode) {
    match kc
    case
      KeyF1 | KeyF2 | KeyF3 | KeyF4 | KeyF5 | KeyF6 | KeyF7 | KeyF8 | KeyF9 | KeyF10 | KeyF11 | KeyF12 => true
    case _ => false
  }

  predicate ControlKey(kc: Keycode) {
    match kc
    case
      KeyBksp | KeySpace | KeyTab | KeyCaps | KeyLshift | KeyLctrl | KeyLalt | KeyEnter | KeyEsc | KeyScroll |
      KeyNum | KeyRshift => true
    case _ => false
  }

  predicate KeypadKey(kc: Keycode) {
    match kc
    case
      KeyKpStar | KeyKpHyphen | KeyKpPlus | KeyKpDot | KeyKp0 | KeyKp1 | KeyKp2 | KeyKp3 | KeyKp4 | KeyKp5 | KeyKp6 |
      KeyKp7 | KeyKp8 | KeyKp9 => true
    case _ => false
  }

  predicate ExtendedKey(kc: Keycode) {
    match kc
    case
      KeyLgui | KeyRctrl | KeyRgui | KeyRalt | KeyApps | KeyInsert | KeyHome | KeyPgup | KeyDel | KeyEnd |
      KeyPgdown | KeyUp | KeyLeft | KeyDown | KeyRight | KeyKpDiv | KeyKpEn => true
    case _ => false
  }

  predicate SpecialKey(kc: Keycode) {
    match kc
    case
      KeyUnk | KeyKpMinus | KeyPrntScrn | KeyPause => true
    case _ => false
  }

  lemma SpecialCodes(kc: Keycode)
    requires SpecialKey(kc)
    ensures InTables(kc)
  {
    hide ScanToKey;
    hide Scan2BytesToKey;
  }

  lemma LettersAgree(kc: Keycode)
    requires LetterKey(kc)
    ensures InTables(kc)
  {
  }

  lemma SignsAgree(kc: Keycode)
    requires SignKey(kc)
    ensures InTables(kc)
  {
  }

  lemma FunctionsAgree(kc: Keycode)
    requires FunctionKey(kc)
    ensures InTables(kc)
  {
  }

  lemma ControlsAgree(kc: Keycode)
    requires ControlKey(kc)
    ensures InTables(kc)
  {
  }

  lemma KeypadAgrees(kc: Keycode)
    requires KeypadKey(kc)
    ensures InTables(kc)
  {
  }

  lemma ExtendedAgree(kc: Keycode)
    requires ExtendedKey(kc)
    ensures InTables(kc)
  {
  }

  /** So it is after 0xe0. */
  lemma AfterE0Agrees(x: nat)
    ensures Scan2BytesToKey(x) != KeyUnk ==> x < 0x100 && SetTwo(Scan2BytesToKey(x)) == AfterE0(x)
  {
    AfterE0IsExtended(x);
    if Scan2BytesToKey(x) != KeyUnk {
      SecondByte(x, Scan2BytesToKey(x));
    }
  }

  lemma AfterE0IsExtended(x: nat)
    ensures Scan2BytesToKey(x) != KeyUnk ==> ExtendedKey(Scan2BytesToKey(x))
  {
  }

  lemma SecondByte(x: nat, kc: Keycode)
    requires ExtendedKey(kc) && Scan2BytesToKey(x) == kc
    ensures x < 0x100 && SetTwo(kc) == AfterE0(x)
  {
  }
}
