/** The digits, padding and precision of printf (libc/stdio/printf.c:37-120). */
module NumberText {
  import opened Powers
  import opened Wrappers

  // The bits of type: ZEROPAD, SIGN, PLUS, SPACE, LEFT, SMALL, SPECIAL.
  datatype Flags = Flags(zeropad: bool, sign: bool, plus: bool, space: bool, left: bool, small: bool, special: bool)

  // long, 32 bits wide
  type Long = n: int | -0x8000_0000 <= n < 0x8000_0000

  const DIGITS := "0123456789ABCDEF"
  const SMALL_DIGITS := "0123456789abcdef"

  /** A long seen as an unsigned long. */
  function Unsigned(n: Long): (u: nat)
    ensures u < 0x1_0000_0000
  {
    if n < 0 then n + 0x1_0000_0000 else n
  }

  /** digits[d] | locase. */
  function Digit(d: nat, small: bool): char
    requires d < 16
  {
    if small then SMALL_DIGITS[d] else DIGITS[d]
  }

  // __do_div: what is left of n, and the digit that it gives.
  function Quotient(u: nat, base: nat): nat
    requires base >= 2
  {
    u / base
  }

  function Remainder(u: nat, base: nat): (r: nat)
    requires base >= 2
    ensures r < base
  {
    u % base
  }

  lemma DivisionFacts(u: nat, base: nat)
    requires base >= 2
    ensures u == base * Quotient(u, base) + Remainder(u, base)
    ensures 2 * Quotient(u, base) <= u
    ensures Quotient(u, base) == 0 <==> u < base
  {
    var q := u / base;
    assert u == base * q + u % base;
    Grows(q, base);
  }

  lemma Grows(q: nat, base: nat)
    requires base >= 2
    ensures base * q >= 2 * q
    ensures q >= 1 ==> base * q >= base
  {
  }

  /** u in a base, most significant digit first. */
  function Digits(u: nat, base: nat, small: bool): (s: string)
    requires 2 <= base <= 16
    ensures s != []
  {
    DivisionFacts(u, base);
    if u < base then [Digit(u, small)]
    else Digits(Quotient(u, base), base, small) + [Digit(Remainder(u, base), small)]
  }

  function Repeat(c: char, n: int): (s: string)
    ensures |s| == if n < 0 then 0 else n
  {
    seq(if n < 0 then 0 else n, _ => c)
  }

  function SignText(num: Long, flags: Flags): string {
    if !flags.sign then ""
    else if num < 0 then "-"
    else if flags.plus then "+"
    else if flags.space then " "
    else ""
  }

  function PrefixText(base: nat, flags: Flags): string {
    if !flags.special then ""
    else if base == 16 then if flags.small then "0x" else "0X"
    else if base == 8 then "0"
    else ""
  }

  /** The number whose digits are written: without SIGN the bits are unsigned. */
  function Magnitude(num: Long, flags: Flags): (u: nat)
    ensures u < 0x1_0000_0000
  {
    if flags.sign && num < 0 then 0 - num as int else Unsigned(num)
  }

  /** The room that is left in the field goes to one place only: after the text,
      between prefix and digits, or before everything. */
  function Layout(sign: string, prefix: string, zeros: string, digits: string, room: int, left: bool,
                  zeropad: bool): (s: string)
    ensures |s| == |sign| + |prefix| + |zeros| + |digits| + Max(room, 0)
  {
    if left then sign + prefix + zeros + digits + Repeat(' ', room)
    else if zeropad then sign + prefix + Repeat('0', room) + zeros + digits
    else Repeat(' ', room) + sign + prefix + zeros + digits
  }

  /** What is written. */
  function Text(num: Long, base: nat, size: int, precision: int, flags: Flags): string
    requires 2 <= base <= 16
  {
    var sign, prefix := SignText(num, flags), PrefixText(base, flags);
    var digits := Digits(Magnitude(num, flags), base, flags.small);
    var zeros := Repeat('0', precision - |digits|);
    var room := size - |sign| - |prefix| - |zeros| - |digits|;
    Layout(sign, prefix, zeros, digits, room, flags.left, flags.zeropad)
  }

  function Max(a: int, b: int): int {
    if a < b then b else a
  }

  lemma TextLength(num: Long, base: nat, size: int, precision: int, flags: Flags)
    requires 2 <= base <= 16
    ensures |Text(num, base, size, precision, flags)| ==
            Max(size, |SignText(num, flags)| + |PrefixText(base, flags)|
                      + Max(|Digits(Magnitude(num, flags), base, flags.small)|, precision))
  {
    hide Digits;
  }

  /** The digits fit in the scratch array of 66 characters. */
  lemma {:induction false} DigitsFit(u: nat, base: nat, small: bool, bits: nat)
    requires 2 <= base <= 16 && u < Pow2(bits)
    ensures |Digits(u, base, small)| <= Max(bits, 1)
    decreases bits
  {
    if u >= base {
      DivisionFacts(u, base);
      DigitsFit(Quotient(u, base), base, small, bits - 1);
      assert bits != 1;
    }
  }

  // --------------------------------------------------------------------------
  // number, on a buffer

  function Reversed(s: string): (r: string)
    ensures |r| == |s|
  {
    if s == "" then "" else [s[|s| - 1]] + Reversed(s[..|s| - 1])
  }

  /** The buffer after text was written from p on. */
  ghost predicate Wrote(now: string, before: string, p: nat, text: string) {
    p + |text| <= |before| && now == before[..p] + text + before[p + |text|..]
  }

  function Append(text: string, more: string): (r: string)
    ensures |r| == |text| + |more|
  {
    text + more
  }

  lemma ReversedMore(s: string, c: char)
    ensures Reversed(s + [c]) == [c] + Reversed(s)
  {
    assert (s + [c])[..|s|] == s;
  }

  /** The digits that are still to be generated: none when nothing is left. */
  function Rest(u: nat, base: nat, small: bool): string
    requires 2 <= base <= 16
  {
    if u == 0 then "" else Digits(u, base, small)
  }

  lemma DigitsStep(u: nat, base: nat, small: bool, low: string)
    requires 2 <= base <= 16 && u > 0
    ensures Quotient(u, base) < u
    ensures Append(Rest(u, base, small), low) ==
            Append(Rest(Quotient(u, base), base, small), [Digit(Remainder(u, base), small)] + low)
  {
    DivisionFacts(u, base);
    hide Quotient;
    hide Remainder;
    hide Digit;
    if u < base {
      assert base * Quotient(u, base) == 0;
    }
  }

  /** The scratch digits: least significant first. */
  method Generate(tmp: array<char>, number: nat, base: nat, small: bool) returns (i: nat)
    requires 2 <= base <= 16 && number < 0x1_0000_0000 && tmp.Length == 66
    modifies tmp
    ensures 0 < i <= 32 && i == |Digits(number, base, small)| && Reversed(tmp[..i]) == Digits(number, base, small)
  {
    LongDigitsFit(number, base, small);
    hide Quotient;
    hide Remainder;
    hide Digits;
    hide Digit;
    hide Reversed;
    var u: nat := number;
    i := 0;
    if u == 0 {
      tmp[0] := '0';
      i := 1;
      ZeroDigit(base, small);
      assert tmp[..1] == "0";
    } else {
      ghost var all := Append(Rest(u, base, small), "");
      assert all == Digits(number, base, small);
      EmptyReversed();
      hide Append;
      ghost var low := "";
      while u != 0
        invariant i == |low| <= 32 && low == Reversed(tmp[..i])
        invariant all == Append(Rest(u, base, small), low)
        decreases u
      {
        DigitsStep(u, base, small, low);
        ghost var done := tmp[..i];
        assert u > 0 && |Rest(u, base, small)| >= 1;
        tmp[i] := Digit(Remainder(u, base), small);
        low := [tmp[i]] + low;
        u := Quotient(u, base);
        i := i + 1;
        assert tmp[..i] == done + [tmp[i - 1]];
        ReversedMore(done, tmp[i - 1]);
      }
      NothingLeft(low);
    }
  }

  lemma NothingLeft(low: string)
    ensures Append("", low) == low
  {
  }

  lemma Moved(s: string, c: char, t: string)
    ensures s + ([c] + t) == (s + [c]) + t
  {
  }

  lemma ZeroDigit(base: nat, small: bool)
    requires 2 <= base <= 16
    ensures Digits(0, base, small) == "0" == Reversed("0")
  {
    ReversedMore("", '0');
  }

  lemma EmptyReversed()
    ensures Reversed("") == ""
  {
  }

  lemma LongDigitsFit(u: nat, base: nat, small: bool)
    requires 2 <= base <= 16 && u < 0x1_0000_0000
    ensures |Digits(u, base, small)| <= 32
  {
    hide Digits;
    hide Pow2;
    Constants();
    DigitsFit(u, base, small, 32);
  }

  // The output statements.  Each one appends to the text that was written into
  // the buffer from p on, and str is where the next character goes.

  /** *str++ = c */
  method PutChar(buf: array<char>, str: nat, c: char, ghost before: string, ghost p: nat, ghost text: string)
    returns (next: nat)
    requires Wrote(buf[..], before, p, text) && str == p + |text| < buf.Length
    modifies buf
    ensures next == str + 1 && Wrote(buf[..], before, p, text + [c])
  {
    buf[str] := c;
    next := str + 1;
  }

  /** What such a loop leaves of its counter. */
  function Spent(n: int): (r: int)
    ensures r < 0
  {
    (if n < 0 then n else 0) - 1
  }

  /** while (n-- > 0) *str++ = c */
  method Put(buf: array<char>, str: nat, c: char, n: int, ghost before: string, ghost p: nat, ghost text: string)
    returns (next: nat, after: int)
    requires Wrote(buf[..], before, p, text) && str == p + |text| && str + Max(n, 0) <= buf.Length
    modifies buf
    ensures next == str + Max(n, 0) && after == Spent(n)
    ensures Wrote(buf[..], before, p, Append(text, Repeat(c, n)))
  {
    next, after := str, n;
    ghost var done := "";
    assert text + done == text;
    while after > 0
      invariant after == n - |done| && next == str + |done| && (|done| == 0 || |done| <= n)
      invariant forall k :: 0 <= k < |done| ==> done[k] == c
      invariant Wrote(buf[..], before, p, text + done)
    {
      next := PutChar(buf, next, c, before, p, text + done);
      assert text + done + [c] == text + (done + [c]);
      done := done + [c];
      after := after - 1;
    }
    assert done == Repeat(c, n);
    after := after - 1;
  }

  /** while (i-- > 0) *str++ = tmp[i] */
  method PutReversed(buf: array<char>, str: nat, tmp: array<char>, n: nat, ghost before: string,
                     ghost p: nat, ghost text: string)
    returns (next: nat)
    requires buf != tmp && n <= tmp.Length
    requires Wrote(buf[..], before, p, text) && str == p + |text| && str + n <= buf.Length
    modifies buf
    ensures next == str + n && Wrote(buf[..], before, p, Append(text, Reversed(tmp[..n])))
  {
    hide Reversed;
    var i := n;
    next := str;
    ghost var done := "";
    ghost var all := Reversed(tmp[..n]);
    assert text + done == text;
    while i > 0
      invariant 0 <= i <= n && |done| == n - i && next == str + |done|
      invariant done + Reversed(tmp[..i]) == all
      invariant Wrote(buf[..], before, p, text + done)
    {
      i := i - 1;
      assert tmp[..i + 1] == tmp[..i] + [tmp[i]];
      ReversedMore(tmp[..i], tmp[i]);
      Moved(done, tmp[i], Reversed(tmp[..i]));
      next := PutChar(buf, next, tmp[i], before, p, text + done);
      assert text + done + [tmp[i]] == text + (done + [tmp[i]]);
      done := done + [tmp[i]];
    }
    EmptyReversed();
    assert done == all;
  }

  /** The sign and the prefix. */
  method PutHead(buf: array<char>, str: nat, sign: Option<char>, base: nat, flags: Flags,
                 ghost before: string, ghost p: nat, ghost text: string) returns (next: nat)
    requires Wrote(buf[..], before, p, text) && str == p + |text|
    requires str + |Head(sign, base, flags)| <= buf.Length
    modifies buf
    ensures next == str + |Head(sign, base, flags)| && Wrote(buf[..], before, p, Append(text, Head(sign, base, flags)))
  {
    hide Wrote;
    next := str;
    ghost var t := text;
    if sign.Some? {
      next := PutChar(buf, next, sign.value, before, p, t);
      t := t + [sign.value];
    }
    assert t == text + Chars(sign);
    if flags.special {
      if base == 8 {
        next := PutChar(buf, next, '0', before, p, t);
        t := t + "0";
      } else if base == 16 {
        next := PutChar(buf, next, '0', before, p, t);
        t := t + "0";
        next := PutChar(buf, next, if flags.small then 'x' else 'X', before, p, t);
        t := t + [if flags.small then 'x' else 'X'];
      }
    }
    assert t == text + Head(sign, base, flags);
  }

  function Head(sign: Option<char>, base: nat, flags: Flags): string {
    Chars(sign) + PrefixText(base, flags)
  }

  /** What is written before the zeros and digits. */
  function Front(sign: Option<char>, base: nat, flags: Flags, room: int): string {
    var t0 := if !flags.zeropad && !flags.left then Append("", Repeat(' ', room)) else "";
    var t1 := Append(t0, Head(sign, base, flags));
    if flags.left then t1
    else Append(t1, Repeat(if flags.zeropad then '0' else ' ', if flags.zeropad then room else Spent(room)))
  }

  /** The room after the front was written; negative unless the text is left-justified. */
  function RoomAfter(flags: Flags, room: int): int {
    if flags.left then room else if flags.zeropad then Spent(room) else Spent(Spent(room))
  }

  lemma FrontLength(sign: Option<char>, base: nat, flags: Flags, room: int)
    ensures |Front(sign, base, flags, room)| + Max(RoomAfter(flags, room), 0) ==
            Max(room, 0) + |Head(sign, base, flags)|
  {
    hide Head;
    hide Append;
    hide Repeat;
  }

  /** Padding, sign and prefix, and zero padding. */
  method PutFront(buf: array<char>, p: nat, sign: Option<char>, base: nat, flags: Flags, room: int)
    returns (str: nat, size: int)
    requires p + |Front(sign, base, flags, room)| <= buf.Length
    modifies buf
    ensures str == p + |Front(sign, base, flags, room)| && size == RoomAfter(flags, room)
    ensures Wrote(buf[..], old(buf[..]), p, Front(sign, base, flags, room))
  {
    hide Head;
    hide Append;
    hide Repeat;
    ghost var before, t0 := buf[..], "";
    assert Wrote(buf[..], before, p, t0);
    hide Wrote;
    str, size := p, room;
    if !flags.zeropad && !flags.left {
      t0 := Append("", Repeat(' ', size));
      str, size := Put(buf, str, ' ', size, before, p, "");
    }
    ghost var t1 := Append(t0, Head(sign, base, flags));
    str := PutHead(buf, str, sign, base, flags, before, p, t0);
    if !flags.left {
      str, size := Put(buf, str, if flags.zeropad then '0' else ' ', size, before, p, t1);
    }
  }

  /** The second half of number: everything that is written. */
  method Emit(buf: array<char>, p: nat, sign: Option<char>, base: nat, flags: Flags, tmp: array<char>,
              i: nat, room: int, zeros: int)
    returns (str: nat)
    requires buf != tmp && 0 < i <= tmp.Length
    requires p + |Emitted(sign, base, flags, tmp[..i], room, zeros)| <= buf.Length
    modifies buf
    ensures str == p + |Emitted(sign, base, flags, tmp[..i], room, zeros)|
    ensures Wrote(buf[..], old(buf[..]), p, Emitted(sign, base, flags, tmp[..i], room, zeros))
  {
    hide Reversed;
    hide Repeat;
    hide Head;
    ghost var before, digits := buf[..], tmp[..i];
    EmittedLength(sign, base, flags, digits, room, zeros);
    FrontLength(sign, base, flags, room);
    hide Wrote;
    hide Emitted;
    hide Append;
    hide Front;
    hide RoomAfter;
    var size, n;
    str, size := PutFront(buf, p, sign, base, flags, room);
    ghost var t2, last := Front(sign, base, flags, room), size;
    str, n := Put(buf, str, '0', zeros, before, p, t2);
    ghost var t3 := Append(t2, Repeat('0', zeros));
    assert tmp[..i] == digits;
    str := PutReversed(buf, str, tmp, i, before, p, t3);
    ghost var t4 := Append(t3, Reversed(digits));
    str, size := Put(buf, str, ' ', size, before, p, t4);
    Pieces(sign, base, flags, digits, room, zeros);
  }

  /** What Emit writes. */
  function Emitted(sign: Option<char>, base: nat, flags: Flags, digits: string, room: int, zeros: int): string {
    Layout(Chars(sign), PrefixText(base, flags), Repeat('0', zeros), Reversed(digits), room, flags.left, flags.zeropad)
  }

  lemma EmittedLength(sign: Option<char>, base: nat, flags: Flags, digits: string, room: int, zeros: int)
    ensures |Emitted(sign, base, flags, digits, room, zeros)| ==
            Max(room, 0) + |Head(sign, base, flags)| + Max(zeros, 0) + |digits|
  {
  }

  /** The pieces, put one after the other, are what Emit promises.  The room is
      negative at every loop after the one that used it. */
  lemma Pieces(sign: Option<char>, base: nat, flags: Flags, digits: string, room: int, zeros: int)
    ensures Append(Append(Append(Front(sign, base, flags, room), Repeat('0', zeros)), Reversed(digits)),
                   Repeat(' ', RoomAfter(flags, room))) ==
            Emitted(sign, base, flags, digits, room, zeros)
  {
    hide Repeat;
    hide Reversed;
    hide Append;
    hide Layout;
    var s, p, zs, ds := Chars(sign), PrefixText(base, flags), Repeat('0', zeros), Reversed(digits);
    NoRoom();
    if flags.left {
      RoomRight(s, p, zs, ds, room, flags.zeropad);
    } else if flags.zeropad {
      RoomInside(s, p, zs, ds, room);
    } else {
      RoomLeft(s, p, zs, ds, room);
    }
  }

  lemma RoomRight(s: string, p: string, zs: string, ds: string, room: int, zeropad: bool)
    ensures Append(Append(Append(Append("", s + p), zs), ds), Repeat(' ', room)) ==
            Layout(s, p, zs, ds, room, true, zeropad)
  {
    hide Repeat;
    assert "" + (s + p) == s + p;
  }

  lemma RoomInside(s: string, p: string, zs: string, ds: string, room: int)
    ensures Append(Append(Append(Append(Append("", s + p), Repeat('0', room)), zs), ds), "") ==
            Layout(s, p, zs, ds, room, false, true)
  {
    hide Repeat;
    assert "" + (s + p) == s + p;
  }

  lemma RoomLeft(s: string, p: string, zs: string, ds: string, room: int)
    ensures Append(Append(Append(Append(Append(Append("", Repeat(' ', room)), s + p), ""), zs), ds), "") ==
            Layout(s, p, zs, ds, room, false, false)
  {
    hide Repeat;
    var r := Repeat(' ', room);
    assert "" + r == r;
    assert r + (s + p) == r + s + p;
    assert r + s + p + "" == r + s + p;
  }

  lemma NoRoom()
    ensures forall c: char, n: int :: n < 0 ==> Repeat(c, n) == ""
  {
  }

  function Chars(c: Option<char>): string {
    if c.Some? then [c.value] else ""
  }

  /** The sign, the magnitude, and the width that sign and prefix leave. */
  method SignAndWidth(num: Long, base: nat, width: int, flags: Flags)
    returns (sign: Option<char>, size: int, u: nat)
    ensures Chars(sign) == SignText(num, flags) && u == Magnitude(num, flags)
    ensures size == width - |SignText(num, flags)| - |PrefixText(base, flags)|
  {
    sign, size, u := None, width, Unsigned(num);
    if flags.sign {
      if num < 0 {
        sign := Some('-');
        u := 0 - num as int;
        size := size - 1;
      } else if flags.plus {
        sign := Some('+');
        size := size - 1;
      } else if flags.space {
        sign := Some(' ');
        size := size - 1;
      }
    }
    if flags.special {
      if base == 16 {
        size := size - 2;
      } else if base == 8 {
        size := size - 1;
      }
    }
  }

  /** number: None stands for NULL.  The caller must leave room for the text. */
  method Number(buf: array<char>, p: nat, num: Long, base: int, width: int, least: int, flags: Flags)
    returns (end: Option<nat>)
    requires 2 <= base <= 16 ==> p + |Text(num, base, width, least, flags)| <= buf.Length
    modifies buf
    ensures end.None? <==> base < 2 || base > 16
    ensures end.None? ==> buf[..] == old(buf[..])
    ensures end.Some? ==>
              && end.value == p + |Text(num, base, width, least, flags)|
              && Wrote(buf[..], old(buf[..]), p, Text(num, base, width, least, flags))
  {
    hide Digits;
    hide Reversed;
    hide Repeat;
    hide Layout;
    hide Wrote;
    hide SignText;
    hide PrefixText;
    hide Magnitude;
    hide Chars;
    if base < 2 || base > 16 {
      return None;
    }
    var sign, size, u := SignAndWidth(num, base, width, flags);
    var precision := least;
    var tmp := new char[66];
    var i := Generate(tmp, u, base, flags.small);
    if i > precision {
      precision := i;
    }
    size := size - precision;
    SameZeros(least, precision, i);
    var str := Emit(buf, p, sign, base, flags, tmp, i, size, precision - i);
    return Some(str);
  }

  lemma SameZeros(least: int, precision: int, i: nat)
    requires precision == Max(least, i)
    ensures Repeat('0', precision - i) == Repeat('0', least - i) && |Repeat('0', least - i)| == precision - i
  {
  }

  // --------------------------------------------------------------------------
  // What the digits mean

  function DigitValue(c: char): (d: nat)
    requires IsDigit(c)
    ensures d < 16
  {
    if '0' <= c <= '9' then c as int - '0' as int
    else if 'a' <= c <= 'f' then c as int - 'a' as int + 10
    else c as int - 'A' as int + 10
  }

  predicate IsDigit(c: char) {
    '0' <= c <= '9' || 'a' <= c <= 'f' || 'A' <= c <= 'F'
  }

  predicate AllDigits(s: string) {
    forall k :: 0 <= k < |s| ==> IsDigit(s[k])
  }

  /** The value of a digit string in positional notation. */
  function Value(s: string, base: nat): nat
    requires AllDigits(s)
  {
    if s == "" then 0 else base * Value(s[..|s| - 1], base) + DigitValue(s[|s| - 1])
  }

  lemma DigitMeans(d: nat, small: bool)
    requires d < 16
    ensures IsDigit(Digit(d, small)) && DigitValue(Digit(d, small)) == d && (Digit(d, small) == '0' <==> d == 0)
  {
  }

  lemma ValueMore(s: string, c: char, base: nat)
    requires AllDigits(s) && IsDigit(c)
    ensures AllDigits(s + [c]) && Value(s + [c], base) == base * Value(s, base) + DigitValue(c)
  {
    assert (s + [c])[..|s|] == s;
  }

  lemma NoDigits(base: nat)
    ensures Value("", base) == 0
  {
  }

  /** Nothing but the number: positional notation without leading zeros. */
  lemma {:induction false} DigitsMean(u: nat, base: nat, small: bool)
    requires 2 <= base <= 16
    ensures AllDigits(Digits(u, base, small)) && Value(Digits(u, base, small), base) == u
    ensures u > 0 ==> Digits(u, base, small)[0] != '0'
    ensures forall c <- Digits(u, base, small) :: DigitValue(c) < base
    decreases u
  {
    hide Quotient;
    hide Remainder;
    hide Digit;
    hide DigitValue;
    hide IsDigit;
    hide Value;
    DivisionFacts(u, base);
    if u < base {
      DigitMeans(u, small);
      ValueMore("", Digit(u, small), base);
      NoDigits(base);
      assert Digits(u, base, small) == "" + [Digit(u, small)];
    } else {
      var q, r := Quotient(u, base), Remainder(u, base);
      DigitsMean(q, base, small);
      DigitMeans(r, small);
      ValueMore(Digits(q, base, small), Digit(r, small), base);
      assert Digits(u, base, small) == Digits(q, base, small) + [Digit(r, small)];
    }
  }
}
