/** Reading back the numbers that printf writes, and how they look
    (libc/stdio/printf.c:50-120). */
module NumberReading {
  import opened NumberText
  import opened Wrappers

  // --------------------------------------------------------------------------
  // The reader, in the manner of strtol: blanks, a sign, 0x for base sixteen,
  // and the digits up to a blank or the end

  function AfterBlanks(s: string): string {
    if s != "" && s[0] == ' ' then AfterBlanks(s[1..]) else s
  }

  function UpToBlank(s: string): string {
    if s == "" || s[0] == ' ' then "" else [s[0]] + UpToBlank(s[1..])
  }

  function AfterSign(s: string): string {
    if s != "" && (s[0] == '-' || s[0] == '+') then s[1..] else s
  }

  function AfterPrefix(s: string, base: nat): string {
    if base == 16 && |s| >= 2 && s[0] == '0' && (s[1] == 'x' || s[1] == 'X') then s[2..] else s
  }

  function ReadNumber(s: string, base: nat): Option<int> {
    var text := AfterBlanks(s);
    var digits := UpToBlank(AfterPrefix(AfterSign(text), base));
    if digits == "" || !AllDigits(digits) then None
    else
      var value: int := Value(digits, base);
      Some(if text[0] == '-' then 0 - value else value)
  }

  // --------------------------------------------------------------------------
  // The parts of what is written

  /** Blanks, sign and prefix, zeros, the digits, blanks. */
  ghost predicate Parts(text: string, front: nat, sign: string, prefix: string, zeros: nat, digits: string, back: nat) {
    text == Repeat(' ', front) + (sign + (prefix + (Repeat('0', zeros) + digits))) + Repeat(' ', back)
  }

  lemma TextParts(num: Long, base: nat, size: int, precision: int, flags: Flags)
    returns (front: nat, zeros: nat, back: nat)
    requires 2 <= base <= 16
    ensures var digits := Digits(Magnitude(num, flags), base, flags.small);
      Parts(Text(num, base, size, precision, flags), front, SignText(num, flags), PrefixText(base, flags), zeros,
            digits, back)
    ensures (front > 0 ==> !flags.left && !flags.zeropad) && (back > 0 ==> flags.left)
  {
    hide Digits;
    hide SignText;
    hide PrefixText;
    hide Layout;
    var sign, prefix := SignText(num, flags), PrefixText(base, flags);
    var digits := Digits(Magnitude(num, flags), base, flags.small);
    front, zeros, back := LayoutParts(sign, prefix, precision - |digits|, digits,
                                      size - |sign| - |prefix| - Max(precision - |digits|, 0) - |digits|, flags);
  }

  lemma LayoutParts(sign: string, prefix: string, least: int, digits: string, room: int, flags: Flags)
    returns (front: nat, zeros: nat, back: nat)
    ensures Parts(Layout(sign, prefix, Repeat('0', least), digits, room, flags.left, flags.zeropad),
                  front, sign, prefix, zeros, digits, back)
    ensures (front > 0 ==> !flags.left && !flags.zeropad) && (back > 0 ==> flags.left)
  {
    front, zeros, back := 0, Max(least, 0), 0;
    NoRepeat(' ', room);
    NoRepeat('0', room);
    NoRepeat('0', least);
    NoRepeat(' ', 0);
    if flags.left {
      back := Max(room, 0);
    } else if flags.zeropad {
      ZerosJoin(Max(room, 0), zeros);
      zeros := zeros + Max(room, 0);
    } else {
      front := Max(room, 0);
    }
    hide Repeat;
    Regroup(Repeat(' ', front), sign, prefix, Repeat('0', Max(room, 0)), Repeat('0', Max(least, 0)), digits,
            Repeat(' ', back));
  }

  lemma NoRepeat(c: char, n: int)
    ensures Repeat(c, Max(n, 0)) == Repeat(c, n) && (n <= 0 ==> Repeat(c, n) == "")
  {
  }

  lemma ZerosJoin(a: nat, b: nat)
    ensures Repeat('0', a) + Repeat('0', b) == Repeat('0', b + a)
  {
  }

  lemma Regroup(a: string, b: string, c: string, d: string, e: string, f: string, g: string)
    ensures a + b + c + e + f == a + (b + (c + (e + f))) + ""
    ensures b + c + d + e + f == "" + (b + (c + ((d + e) + f))) + ""
    ensures b + c + e + f + g == "" + (b + (c + (e + f))) + g
  {
  }

  lemma Regroup3(a: string, b: string, c: string)
    ensures a + b + c == a + (b + c)
  {
  }

  lemma {:induction false} BlanksSkipped(n: nat, s: string)
    ensures AfterBlanks(Repeat(' ', n) + s) == AfterBlanks(s)
    decreases n
  {
    if n == 0 {
      assert Repeat(' ', n) + s == s;
    } else {
      assert (Repeat(' ', n) + s)[1..] == Repeat(' ', n - 1) + s;
      BlanksSkipped(n - 1, s);
    }
  }

  lemma {:induction false} WordFound(word: string, n: nat)
    requires ' ' !in word
    ensures UpToBlank(word + Repeat(' ', n)) == word
    decreases |word|
  {
    if word == "" {
      assert word + Repeat(' ', n) == Repeat(' ', n);
    } else {
      assert (word + Repeat(' ', n))[1..] == word[1..] + Repeat(' ', n);
      WordFound(word[1..], n);
    }
  }

  /** Zeros in front do not change the value. */
  lemma {:induction false} ZerosInFront(n: nat, digits: string, base: nat)
    requires AllDigits(digits)
    ensures AllDigits(Repeat('0', n) + digits) && Value(Repeat('0', n) + digits, base) == Value(digits, base)
    decreases |digits|, n
  {
    var all := Repeat('0', n) + digits;
    if digits == "" {
      if n > 0 {
        assert all[..|all| - 1] == Repeat('0', n - 1) + "";
        ZerosInFront(n - 1, "", base);
      } else {
        assert all == "";
      }
    } else {
      assert all[..|all| - 1] == Repeat('0', n) + digits[..|digits| - 1];
      ZerosInFront(n, digits[..|digits| - 1], base);
    }
  }

  /** What the reader makes of a sign, a prefix and a word of digits. */
  lemma WordIsRead(sign: string, prefix: string, word: string, back: nat, base: nat)
    requires sign in {"", " ", "+", "-"} && word != "" && AllDigits(word)
    requires prefix == "" || (prefix == "0" && base == 8) || (prefix in {"0x", "0X"} && base == 16)
    ensures var value: int := Value(word, base);
      ReadNumber(sign + (prefix + word) + Repeat(' ', back), base) == Some(if sign == "-" then 0 - value else value)
  {
    hide Value;
    NoBlank(word);
    var digits := if prefix == "0" then "0" + word else word;
    var rest := prefix + word + Repeat(' ', back);
    ZerosInFront(1, word, base);
    assert Repeat('0', 1) == "0";
    FirstOf(prefix, word, back);
    PrefixIsSkipped(prefix, word, back, base);
    WordFound(digits, back);
    Regroup3(sign, prefix + word, Repeat(' ', back));
    SignIsSkipped(sign, rest);
    hide AllDigits;
  }

  lemma SignIsSkipped(sign: string, rest: string)
    requires sign in {"", " ", "+", "-"} && rest != "" && IsDigit(rest[0])
    ensures var text := AfterBlanks(sign + rest);
      AfterSign(text) == rest && text != "" && (text[0] == '-' <==> sign == "-")
  {
    if sign == " " {
      assert Repeat(' ', 1) == " ";
      BlanksSkipped(1, rest);
    } else if sign == "" {
      assert sign + rest == rest;
    } else {
      assert (sign + rest)[1..] == rest;
    }
  }

  lemma NoBlank(word: string)
    requires AllDigits(word)
    ensures ' ' !in word && '-' !in word && '+' !in word && 'x' !in word && 'X' !in word
  {
  }

  lemma FirstOf(prefix: string, word: string, back: nat)
    requires word != "" && AllDigits(word) && prefix in {"", "0", "0x", "0X"}
    ensures var rest := prefix + word + Repeat(' ', back); rest != "" && IsDigit(rest[0])
  {
  }

  lemma PrefixIsSkipped(prefix: string, word: string, back: nat, base: nat)
    requires word != "" && AllDigits(word)
    requires prefix == "" || (prefix == "0" && base == 8) || (prefix in {"0x", "0X"} && base == 16)
    ensures AfterPrefix(prefix + word + Repeat(' ', back), base) ==
            (if prefix == "0" then "0" + word else word) + Repeat(' ', back)
  {
    var rest := prefix + word + Repeat(' ', back);
    if prefix in {"0x", "0X"} {
      assert rest[2..] == word + Repeat(' ', back);
    } else if prefix == "" {
      assert rest == word + Repeat(' ', back);
      assert |rest| >= 2 ==> rest[1] != 'x' && rest[1] != 'X' by {
        if |word| > 1 { assert IsDigit(word[1]); }
      }
    }
  }

  /** Whatever the width, the precision and the flags, the number is read back:
      with its sign when it was written with one, else as an unsigned long. */
  lemma TextIsRead(num: Long, base: nat, size: int, precision: int, flags: Flags)
    requires 2 <= base <= 16
    ensures ReadNumber(Text(num, base, size, precision, flags), base) ==
            Some(if flags.sign then num as int else if num < 0 then num + 0x1_0000_0000 else num as int)
  {
    hide Digits;
    hide Text;
    hide Value;
    hide ReadNumber;
    var u := Magnitude(num, flags);
    var sign, prefix, digits := SignText(num, flags), PrefixText(base, flags), Digits(u, base, flags.small);
    var front, zeros, back := TextParts(num, base, size, precision, flags);
    DigitsMean(u, base, flags.small);
    ZerosInFront(zeros, digits, base);
    var word := Repeat('0', zeros) + digits;
    WordIsRead(sign, prefix, word, back, base);
    var s := sign + (prefix + word) + Repeat(' ', back);
    assert Text(num, base, size, precision, flags) == Repeat(' ', front) + s;
    BlanksFirst(front, s, base);
  }

  lemma BlanksFirst(front: nat, s: string, base: nat)
    ensures ReadNumber(Repeat(' ', front) + s, base) == ReadNumber(s, base)
  {
    BlanksSkipped(front, s);
  }

  /** What a reader of the text sees: the signs, the prefix, the case of the
      letters, and on which side the blanks are. */
  lemma TextLooks(num: Long, base: nat, size: int, precision: int, flags: Flags)
    requires 2 <= base <= 16
    ensures var t := Text(num, base, size, precision, flags);
      && ('-' in t <==> flags.sign && num < 0)
      && ('+' in t <==> flags.sign && num >= 0 && flags.plus)
      && ('x' in t <==> flags.special && base == 16 && flags.small)
      && ('X' in t <==> flags.special && base == 16 && !flags.small)
      && (forall c <- t :: if flags.small then !('A' <= c <= 'F') else !('a' <= c <= 'f'))
      && t != "" && (t[|t| - 1] == ' ' ==> flags.left)
      && (t[0] == ' ' ==> (!flags.left && !flags.zeropad) || (flags.sign && num >= 0 && !flags.plus && flags.space))
  {
    hide Digits;
    hide Text;
    var u := Magnitude(num, flags);
    var sign, prefix, digits := SignText(num, flags), PrefixText(base, flags), Digits(u, base, flags.small);
    var front, zeros, back := TextParts(num, base, size, precision, flags);
    DigitsMean(u, base, flags.small);
    DigitsCase(u, base, flags.small);
    NoBlank(digits);
    LooksOf(Text(num, base, size, precision, flags), front, sign, prefix, zeros, digits, back);
  }

  lemma {:induction false} DigitsCase(u: nat, base: nat, small: bool)
    requires 2 <= base <= 16
    ensures forall c <- Digits(u, base, small) :: if small then !('A' <= c <= 'F') else !('a' <= c <= 'f')
    decreases u
  {
    DivisionFacts(u, base);
    hide Quotient;
    hide Remainder;
    if u >= base {
      DigitsCase(Quotient(u, base), base, small);
    }
  }

  /** A character is in the text exactly when it is in one of its parts. */
  lemma LooksOf(t: string, front: nat, sign: string, prefix: string, zeros: nat, digits: string, back: nat)
    requires Parts(t, front, sign, prefix, zeros, digits, back) && digits != ""
    ensures forall c :: c in t <==>
      (c == ' ' && front + back > 0) || c in sign || c in prefix || (c == '0' && zeros > 0) || c in digits
    ensures t != "" && t[|t| - 1] == if back > 0 then ' ' else digits[|digits| - 1]
    ensures t[0] == if front > 0 then ' ' else if sign != "" then sign[0] else if prefix != "" then prefix[0]
                    else if zeros > 0 then '0' else digits[0]
  {
    forall c, n: nat ensures c in Repeat(' ', n) <==> c == ' ' && n > 0 { InRepeat(' ', n, c); }
    forall c, n: nat ensures c in Repeat('0', n) <==> c == '0' && n > 0 { InRepeat('0', n, c); }
  }

  lemma InRepeat(d: char, n: nat, c: char)
    ensures c in Repeat(d, n) <==> c == d && n > 0
  {
    if n > 0 {
      assert Repeat(d, n)[0] == d;
    }
  }

  /** With the prefix of octal numbers a zero comes first. */
  lemma OctalPrefix(num: Long, size: int, precision: int, flags: Flags)
    requires flags.special
    ensures var text := AfterSign(AfterBlanks(Text(num, 8, size, precision, flags))); text != "" && text[0] == '0'
  {
    hide Digits;
    hide Text;
    var u := Magnitude(num, flags);
    var sign, digits := SignText(num, flags), Digits(u, 8, flags.small);
    var front, zeros, back := TextParts(num, 8, size, precision, flags);
    var rest := "0" + (Repeat('0', zeros) + digits) + Repeat(' ', back);
    assert Text(num, 8, size, precision, flags) == Repeat(' ', front) + (sign + rest);
    BlanksSkipped(front, sign + rest);
    assert sign == " " ==> (sign + rest)[1..] == rest;
    assert sign != "" ==> (sign + rest)[1..] == rest;
    assert sign == "" ==> sign + rest == rest;
  }
}
