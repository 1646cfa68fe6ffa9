/** Reading hexadecimal text (libc/stdlib/atoh.c), the inverse of writing it. */
module Hexadecimal {
  import opened CStrings
  import opened NumberText
  import opened Powers

  // abort() is called on anything that is not a digit.
  datatype Parsed = Parsed(n: nat) | Abort

  /** res << 4 on a 32-bit size_t. */
  function ShiftLeft4(n: nat): (r: nat)
    ensures r + 15 < 0x1_0000_0000
    ensures n < 0x1000_0000 ==> r == 16 * n
  {
    16 * (n % 0x1000_0000)
  }

  /** What is returned for a text, from the digits read so far. */
  function Read(n: nat, s: string): (r: Parsed)
    ensures r.Parsed? && n < 0x1_0000_0000 ==> r.n < 0x1_0000_0000
    decreases |s|
  {
    if s == "" then Parsed(n)
    else if !IsDigit(s[0]) then Abort
    else Read(ShiftLeft4(n) + DigitValue(s[0]), s[1..])
  }

  /** atoh. */
  method Atoh(mem: array<char>, nptr: nat) returns (r: Parsed)
    requires Terminated(mem[..], nptr)
    ensures r == Read(0, Str(mem[..], nptr))
  {
    var res: nat, p := 0, nptr;
    ghost var s := Str(mem[..], nptr);
    assert s[0..] == s;
    while mem[p] != NUL
      invariant nptr <= p <= nptr + |s| && res < 0x1_0000_0000
      invariant Read(res, s[p - nptr..]) == Read(0, s)
      decreases nptr + |s| - p
    {
      assert mem[p] == s[p - nptr] && s[p - nptr..][1..] == s[p + 1 - nptr..];
      res := ShiftLeft4(res);
      if '0' <= mem[p] <= '9' {
        res := res + mem[p] as int - '0' as int;
      } else if 'a' <= mem[p] <= 'f' {
        res := res + mem[p] as int - 'a' as int + 10;
      } else if 'A' <= mem[p] <= 'F' {
        res := res + mem[p] as int - 'A' as int + 10;
      } else {
        return Abort;
      }
      p := p + 1;
    }
    return Parsed(res);
  }

  lemma {:induction false} ReadMore(n: nat, s: string, c: char)
    ensures Read(n, s + [c]) ==
            match Read(n, s)
            case Abort => Abort
            case Parsed(m) => if IsDigit(c) then Parsed(ShiftLeft4(m) + DigitValue(c)) else Abort
    decreases |s|
  {
    hide DigitValue;
    hide IsDigit;
    hide ShiftLeft4;
    if s == "" {
      assert Read(n, [c]) == if IsDigit(c) then Read(ShiftLeft4(n) + DigitValue(c), [c][1..]) else Abort;
    } else {
      assert (s + [c])[1..] == s[1..] + [c];
      if IsDigit(s[0]) {
        ReadMore(ShiftLeft4(n) + DigitValue(s[0]), s[1..], c);
      }
    }
  }

  /** One more digit, in 32 bits. */
  lemma LowDigits(v: nat, d: nat)
    requires d < 16
    ensures (16 * v + d) % 0x1_0000_0000 == ShiftLeft4(v % 0x1_0000_0000) + d
  {
    var q, r := v / 0x1000_0000, v % 0x1000_0000;
    assert v % 0x1_0000_0000 % 0x1000_0000 == r;
    assert 16 * v + d == 0x1_0000_0000 * q + (16 * r + d);
  }

  /** Anything that is not a digit aborts, however long the text is; a text of
      digits is read as the low 32 bits of its value, in either case. */
  lemma {:induction false} ReadMeans(s: string)
    ensures Read(0, s).Abort? <==> !AllDigits(s)
    ensures AllDigits(s) ==> Read(0, s) == Parsed(Value(s, 16) % 0x1_0000_0000)
    decreases |s|
  {
    hide DigitValue;
    hide IsDigit;
    hide ShiftLeft4;
    if s != "" {
      var front, c := s[..|s| - 1], s[|s| - 1];
      assert s == front + [c];
      ReadMeans(front);
      ReadMore(0, front, c);
      assert AllDigits(s) <==> AllDigits(front) && IsDigit(c);
      if AllDigits(s) {
        LowDigits(Value(front, 16), DigitValue(c));
      }
    }
  }

  /** Up to eight digits are read without loss. */
  lemma {:induction false} ShortValue(s: string)
    requires AllDigits(s)
    ensures Value(s, 16) < Pow2(4 * |s|)
    ensures |s| <= 8 ==> Read(0, s) == Parsed(Value(s, 16)) && Value(s, 16) < 0x1_0000_0000
    decreases |s|
  {
    hide DigitValue;
    hide IsDigit;
    ReadMeans(s);
    if s != "" {
      ShortValue(s[..|s| - 1]);
      PowerOf16(|s|);
      if |s| <= 8 {
        Constants();
        PowerAtMost(4 * |s|, 32);
      }
    } else {
      Constants();
    }
  }

  lemma PowerOf16(n: nat)
    requires n >= 1
    ensures Pow2(4 * n) == 16 * Pow2(4 * (n - 1))
  {
    Constants();
    PowerSum(4, 4 * (n - 1));
  }

  lemma {:induction false} HexLength(u: nat, small: bool, n: nat)
    requires n >= 1 && u < Pow2(4 * n)
    ensures |Digits(u, 16, small)| <= n
    decreases n
  {
    hide Digit;
    DivisionFacts(u, 16);
    if u >= 16 {
      assert n >= 2;
      PowerOf16(n);
      HexLength(Quotient(u, 16), small, n - 1);
    }
  }

  /** Main result: what number writes for any 32-bit value in base 16 without
      width, precision or prefix, atoh reads back, whatever the other flags. */
  lemma ReadInvertsNumber(num: Long, flags: Flags)
    requires !flags.special && !flags.sign
    ensures Read(0, Text(num, 16, -1, -1, flags)) == Parsed(Unsigned(num))
  {
    var u := Unsigned(num);
    var digits := Digits(u, 16, flags.small);
    assert Text(num, 16, -1, -1, flags) == digits;
    Constants();
    HexLength(u, flags.small, 8);
    DigitsMean(u, 16, flags.small);
    ShortValue(digits);
  }
}
