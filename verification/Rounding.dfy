/** Rounding an allocation size up to a power of two by smearing its highest
    bit to the right (kernel/mem/kmalloc.c:222-233). */
module Rounding {
  import opened Memory
  import opened Powers

  /** Bitwise or of two naturals. */
  function Or(x: nat, y: nat): nat {
    if x == 0 && y == 0 then 0
    else 2 * Or(x / 2, y / 2) + if x % 2 == 1 || y % 2 == 1 then 1 else 0
  }

  /** next_highest_power_of_two, with the 32-bit wrap of its first and last step. */
  function NextHighestPowerOfTwo(size: Address): Address {
    var s0 := (size - 1) % ADDRESS_SPACE;
    var s1 := Or(s0, s0 / 2);
    var s2 := Or(s1, s1 / 4);
    var s3 := Or(s2, s2 / 16);
    var s4 := Or(s3, s3 / 256);
    var s5 := Or(s4, s4 / 65536);
    (s5 + 1) % ADDRESS_SPACE
  }

  /** x has h bits and the t highest of them are set. */
  predicate TopOnes(x: nat, h: nat, t: nat) {
    t <= h && Pow2(h) - Pow2(h - t) <= x < Pow2(h)
  }

  /** x covers the t highest of h bits, y the next u: together t + u. */
  lemma {:induction false} OrTopOnes(x: nat, y: nat, h: nat, t: nat, u: nat)
    requires t + u <= h && TopOnes(x, h, t) && TopOnes(y, h - t, u)
    ensures TopOnes(Or(x, y), h, t + u)
    decreases h
  {
    if h == t {
      OrZero(x);
    } else {
      var v := if t + u < h then u else u - 1;
      assert Pow2(h - t) == 2 * Pow2(h - t - 1);
      OrTopOnes(x / 2, y / 2, h - 1, t, v);
    }
  }

  lemma {:induction false} OrZero(x: nat)
    ensures Or(x, 0) == x
  {
    if x != 0 {
      OrZero(x / 2);
    }
  }

  function Min(a: nat, b: nat): nat {
    if a < b then a else b
  }

  lemma LessFromProduct(a: int, b: int, p: nat)
    requires p * a < p * b
    ensures a < b
  {
    assert p * (b - a) == p * b - p * a;
  }

  lemma DivisionBounds(x: nat, p: nat, q: nat, r: nat)
    requires p >= 1 && r <= q <= p * r && p * q - q <= x < p * q
    ensures q - r <= x / p < q
  {
    var y := Quotient(x, p);
    QuotientBounds(x, p, q, r, y);
  }

  lemma Quotient(x: nat, p: nat) returns (y: nat)
    requires p >= 1
    ensures y == x / p && p * y <= x < p * y + p
  {
    y := x / p;
  }

  lemma QuotientBounds(x: nat, p: nat, q: nat, r: nat, y: nat)
    requires p >= 1 && r <= q <= p * r && p * q - q <= x < p * q && p * y <= x < p * y + p
    ensures q - r <= y < q
  {
    assert p * y + p == p * (y + 1);
    LessFromProduct(y, q, p);
    assert p * (q - r) == p * q - p * r;
    LessFromProduct(q - r, y + 1, p);
  }

  lemma Scale(a: nat, r: nat, b: nat)
    requires b >= 1
    ensures a * r <= a * b * r
  {
    assert a * r * b == a * b * r;
    assert a * r * 1 <= a * r * b;
  }

  function Shifted(x: nat, p: nat): nat
    requires p >= 1
  {
    x / p
  }

  lemma ShiftedOnes(x: nat, h: nat, t: nat, u: nat)
    requires t <= h && u == Min(t, h - t) && TopOnes(x, h, t)
    ensures TopOnes(Shifted(x, Pow2(t)), h - t, u)
  {
    hide Pow2;
    var p, q, r := Pow2(t), Pow2(h - t), Pow2(h - t - u);
    PowerSum(t, h - t);
    PowerSum(u, h - t - u);
    PowerSum(u, t - u);
    Scale(Pow2(u), r, Pow2(t - u));
    Scale(1, r, Pow2(u));
    DivisionBounds(x, p, q, r);
  }

  /** One smearing step doubles the run of ones below the highest bit. */
  lemma SmearStep(x: nat, h: nat, t: nat)
    requires TopOnes(x, h, Min(t, h))
    ensures TopOnes(Or(x, Shifted(x, Pow2(t))), h, Min(2 * t, h))
  {
    hide Pow2;
    hide Or;
    if t <= h {
      hide TopOnes;
      var u := Min(t, h - t);
      ShiftedOnes(x, h, t, u);
      OrTopOnes(x, Shifted(x, Pow2(t)), h, t, u);
    } else {
      PowerMonotone(h, t);
      SmallQuotient(x, Pow2(t));
      OrZero(x);
    }
  }

  lemma SmallQuotient(x: nat, p: nat)
    requires x < p
    ensures x / p == 0
  {
  }

  /** Number of bits of x. */
  function Bits(x: nat): (h: nat)
    ensures x < Pow2(h)
    ensures h > 0 ==> Pow2(h - 1) <= x
  {
    if x == 0 then 0 else 1 + Bits(x / 2)
  }

  /** Rounding gives the least power of two that is not below size, for sizes
      up to 2 to the 31; above that, and at zero, it wraps to zero. */
  lemma RoundsUp(size: Address) returns (h: nat)
    ensures size == 0 || size > 0x8000_0000 <==> NextHighestPowerOfTwo(size) == 0
    ensures 0 < size <= 0x8000_0000 ==>
      && h == Bits(size - 1) <= 31
      && NextHighestPowerOfTwo(size) == Pow2(h)
      && size <= Pow2(h)
      && forall k: nat :: size <= Pow2(k) ==> Pow2(h) <= Pow2(k)
  {
    hide Pow2;
    hide Bits;
    hide NextHighestPowerOfTwo;
    var s0 := LastBelow(size);
    h := Rounded(size);
    BitsBound(s0, 31);
    Constants();
    PowerAtLeast(h);
    if h < 32 { PowerMonotone(h, 32); }
    if size > 0 { RoundedIsLeast(size); }
  }

  lemma PowerAtLeast(h: nat)
    ensures Pow2(h) >= 1
  {
  }

  lemma LastBelow(size: Address) returns (s0: nat)
    ensures s0 == (size - 1) % ADDRESS_SPACE == if size == 0 then ADDRESS_SPACE - 1 else size - 1
  {
    s0 := (size - 1) % ADDRESS_SPACE;
  }

  lemma RoundedIsLeast(size: nat)
    requires size > 0
    ensures size <= Pow2(Bits(size - 1))
    ensures forall k: nat :: size <= Pow2(k) ==> Pow2(Bits(size - 1)) <= Pow2(k)
  {
    hide Pow2;
    hide Bits;
    var h := Bits(size - 1);
    BitsBound(size - 1, h);
    forall k: nat | size <= Pow2(k)
      ensures Pow2(h) <= Pow2(k)
    {
      BitsBound(size - 1, k);
      if h < k { PowerMonotone(h, k); }
    }
  }

  lemma Rounded(size: Address) returns (h: nat)
    ensures h == Bits((size - 1) % ADDRESS_SPACE) <= 32
    ensures NextHighestPowerOfTwo(size) == Pow2(h) % ADDRESS_SPACE
  {
    hide Pow2;
    hide Or;
    var s0 := (size - 1) % ADDRESS_SPACE;
    Constants();
    BitsBound(s0, 32);
    h := Bits(s0);
    SmearAll(s0, h);
  }

  /** x has at most k bits exactly when it is below 2 to the k. */
  lemma BitsBound(x: nat, k: nat)
    ensures Bits(x) <= k <==> x < Pow2(k)
  {
    hide Pow2;
    var h := Bits(x);
    if h < k {
      PowerMonotone(h, k);
    } else if k + 1 < h {
      PowerMonotone(k, h - 1);
    }
  }

  lemma SmearAll(s0: Address, h: nat)
    requires h == Bits(s0) <= 32
    ensures var s1 := Or(s0, s0 / 2); var s2 := Or(s1, s1 / 4); var s3 := Or(s2, s2 / 16);
      var s4 := Or(s3, s3 / 256); var s5 := Or(s4, s4 / 65536);
      s5 == Pow2(h) - 1
  {
    Constants();
    var s1 := Or(s0, s0 / 2);
    var s2 := Or(s1, s1 / 4);
    var s3 := Or(s2, s2 / 16);
    var s4 := Or(s3, s3 / 256);
    SmearStep(s0, h, 1);
    SmearStep(s1, h, 2);
    SmearStep(s2, h, 4);
    SmearStep(s3, h, 8);
    SmearStep(s4, h, 16);
  }
}
