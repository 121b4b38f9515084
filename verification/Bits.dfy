/** Bitwise operations of C on unsigned integers, written out on natural numbers, and the
    "smear the top bit to the right" idiom that both the ring and the hash map use to round
    a number to a power of two. */
module Bits {

  const U32: nat := 0x1_0000_0000

  function Pow2(k: nat): (p: nat)
    ensures p > 0
  {
    if k == 0 then 1 else 2 * Pow2(k - 1)
  }

  /** C's `a & b`. */
  function And(a: nat, b: nat): nat {
    if a == 0 then 0
    else 2 * And(a / 2, b / 2) + (if a % 2 == 1 && b % 2 == 1 then 1 else 0)
  }

  /** C's `a | b`. */
  function Or(a: nat, b: nat): nat {
    if a == 0 then b
    else 2 * Or(a / 2, b / 2) + (if a % 2 == 1 || b % 2 == 1 then 1 else 0)
  }

  /** C's `a >> t`. */
  function Shr(a: nat, t: nat): nat
    decreases t
  {
    if t == 0 then a else Shr(a / 2, t - 1)
  }

  /** Bit `i` of `a`. */
  predicate Bit(a: nat, i: nat)
    decreases i
  {
    if i == 0 then a % 2 == 1 else Bit(a / 2, i - 1)
  }

  ghost predicate IsPow2(x: nat) {
    exists k: nat :: Pow2(k) == x
  }

  lemma {:induction false} BitZero(i: nat)
    ensures !Bit(0, i)
  {
    if i > 0 { BitZero(i - 1); }
  }

  lemma {:induction false} BitOr(a: nat, b: nat, i: nat)
    ensures Bit(Or(a, b), i) == (Bit(a, i) || Bit(b, i))
    decreases i
  {
    if a == 0 {
      BitZero(i);
    } else if i > 0 {
      assert Or(a, b) / 2 == Or(a / 2, b / 2);
      BitOr(a / 2, b / 2, i - 1);
    }
  }

  lemma {:induction false} BitShr(a: nat, t: nat, i: nat)
    ensures Bit(Shr(a, t), i) == Bit(a, i + t)
    decreases t
  {
    if t > 0 { BitShr(a / 2, t - 1, i); }
  }

  lemma {:induction false} Pow2Monotone(a: nat, b: nat)
    requires a < b
    ensures 2 * Pow2(a) <= Pow2(b)
    decreases b
  {
    if a + 1 < b { Pow2Monotone(a, b - 1); }
  }

  lemma SmallPowers()
    ensures Pow2(1) == 2 && Pow2(2) == 4 && Pow2(3) == 8 && Pow2(4) == 16 && Pow2(5) == 32
    ensures Pow2(6) == 64 && Pow2(7) == 128 && Pow2(8) == 256
  {
    assert Pow2(4) == 16 by { assert Pow2(2) == 4; }
    assert Pow2(6) == 64;
  }

  lemma BigPowers()
    ensures Pow2(10) == 1024 && Pow2(12) == 4096 && Pow2(18) == 0x40000
    ensures Pow2(16) == 65536 && Pow2(30) == 0x4000_0000 && Pow2(31) == 0x8000_0000 && Pow2(32) == U32
  {
    SmallPowers();
    assert Pow2(10) == 1024;
    assert Pow2(12) == 4096;
    assert Pow2(14) == 16384;
    assert Pow2(16) == 65536;
    assert Pow2(18) == 0x40000;
    assert Pow2(20) == 0x100000;
    assert Pow2(22) == 0x400000;
    assert Pow2(24) == 0x1000000;
    assert Pow2(26) == 0x4000000;
    assert Pow2(28) == 0x10000000;
    assert Pow2(30) == 0x40000000;
  }

  /** Masking with an all-ones mask is the remainder: the reason a table of 2^k slots can be
      indexed with `&`. */
  lemma {:induction false} AndMask(a: nat, k: nat)
    ensures And(a, Pow2(k) - 1) == a % Pow2(k)
    decreases k
  {
    if k == 0 {
      AndZero(a);
    } else {
      AndMask(a / 2, k - 1);
      AndOdd(a, Pow2(k - 1));
      HalveMod(a, Pow2(k - 1));
    }
  }

  lemma {:induction false} AndZero(a: nat)
    ensures And(a, 0) == 0
  {
    if a > 0 { AndZero(a / 2); }
  }

  lemma AndOdd(a: nat, p: nat)
    requires p > 0
    ensures And(a, 2 * p - 1) == 2 * And(a / 2, p - 1) + a % 2
  {
    assert (2 * p - 1) / 2 == p - 1 && (2 * p - 1) % 2 == 1;
  }

  lemma HalveMod(a: nat, p: nat)
    requires p > 0
    ensures a % (2 * p) == 2 * ((a / 2) % p) + a % 2
  {
    var q, r := (a / 2) / p, (a / 2) % p;
    assert a / 2 == q * p + r;
    assert a == 2 * (q * p + r) + a % 2;
    assert a == q * (2 * p) + (2 * r + a % 2) by { assert 2 * (q * p) == q * (2 * p); }
    DivModUnique(a, 2 * p, q, 2 * r + a % 2);
  }

  lemma DivModUnique(x: nat, d: nat, q: nat, r: nat)
    requires x == q * d + r && r < d
    ensures x / d == q && x % d == r
  {
    LessMul(x / d, q, d);
    LessMul(q, x / d, d);
    assert x == x / d * d + x % d;
  }

  lemma {:induction false} LessMul(a: nat, b: nat, d: nat)
    ensures a < b ==> a * d + d <= b * d
    decreases b
  {
    if a < b {
      LessMul(a, b - 1, d);
      assert b * d == (b - 1) * d + d;
    }
  }

  lemma {:induction false} ShrDiv(a: nat, t: nat)
    ensures Shr(a, t) == a / Pow2(t)
    decreases t
  {
    if t > 0 {
      ShrDiv(a / 2, t - 1);
      HalveDiv(a, Pow2(t - 1));
    }
  }

  lemma HalveDiv(a: nat, p: nat)
    requires p > 0
    ensures a / (2 * p) == (a / 2) / p
  {
    var q, r := (a / 2) / p, (a / 2) % p;
    assert a / 2 == q * p + r;
    assert a == q * (2 * p) + (2 * r + a % 2) by { assert 2 * (q * p) == q * (2 * p); }
    DivModUnique(a, 2 * p, q, 2 * r + a % 2);
  }

  /** The low bits of one operand and the high bits of the other do not interfere. */
  lemma {:induction false} OrDisjoint(hi: nat, k: nat, lo: nat)
    requires lo < Pow2(k)
    ensures Or(hi * Pow2(k), lo) == hi * Pow2(k) + lo
    decreases k
  {
    if k == 0 {
      OrZero(hi);
    } else if hi > 0 {
      var p := Pow2(k - 1);
      assert hi * Pow2(k) == 2 * (hi * p);
      assert hi * p > 0;
      OrDisjoint(hi, k - 1, lo / 2);
    }
  }

  lemma {:induction false} OrZero(a: nat)
    ensures Or(a, 0) == a
  {
    if a > 0 { OrZero(a / 2); }
  }

  /** The number of bits of `x`. */
  function Width(x: nat): (k: nat)
    ensures x < Pow2(k)
    ensures x > 0 ==> k > 0 && Pow2(k - 1) <= x
  {
    if x == 0 then 0 else 1 + Width(x / 2)
  }

  lemma {:induction false} TopBit(x: nat)
    ensures x > 0 ==> Bit(x, Width(x) - 1)
    ensures forall i: nat :: Width(x) <= i ==> !Bit(x, i)
  {
    forall i: nat | Width(x) <= i
      ensures !Bit(x, i)
    {
      NoHighBit(x, i);
    }
    if x > 1 { TopBit(x / 2); }
  }

  lemma {:induction false} NoHighBit(x: nat, i: nat)
    requires Width(x) <= i
    ensures !Bit(x, i)
  {
    if i > 0 {
      if x > 0 { NoHighBit(x / 2, i - 1); } else { BitZero(i); }
    }
  }

  lemma {:induction false} WidthBound(x: nat, k: nat)
    requires x < Pow2(k)
    ensures Width(x) <= k
  {
    if x > 0 { WidthBound(x / 2, k - 1); }
  }

  /** `y` is `k` bits wide and its top `t` bits are all ones. */
  ghost predicate TopOnes(y: nat, k: nat, t: nat) {
    && (forall i: nat :: k <= i ==> !Bit(y, i))
    && (forall i: nat :: i < k <= i + t ==> Bit(y, i))
  }

  /** One step `x |= x >> t` doubles the number of leading ones. */
  lemma SmearStep(y: nat, k: nat, t: nat)
    requires TopOnes(y, k, t)
    ensures TopOnes(Or(y, Shr(y, t)), k, 2 * t)
  {
    var w := Or(y, Shr(y, t));
    forall i: nat
      ensures k <= i ==> !Bit(w, i)
      ensures i < k <= i + 2 * t ==> Bit(w, i)
    {
      BitOr(y, Shr(y, t), i);
      BitShr(y, t, i);
      assert k <= i + t ==> k <= i || Bit(y, i);
      assert Bit(y, i + t) || i + t < k - t || k <= i + t;
    }
  }

  lemma {:induction false} AllOnes(y: nat, k: nat, t: nat)
    requires TopOnes(y, k, t) && k <= t
    ensures y == Pow2(k) - 1
    decreases k
  {
    assert forall i: nat :: Bit(y / 2, i) == Bit(y, i + 1);
    if k > 0 {
      assert TopOnes(y / 2, k - 1, t);
      AllOnes(y / 2, k - 1, t);
      assert Bit(y, 0);
    } else if y > 0 {
      TopBit(y);
    }
  }

  /** Five shifts fill a 32-bit word. */
  function Smear32(x: nat): nat {
    var a := Or(x, Shr(x, 1));
    var b := Or(a, Shr(a, 2));
    var c := Or(b, Shr(b, 4));
    var d := Or(c, Shr(c, 8));
    Or(d, Shr(d, 16))
  }

  /** With one more shift by 32 the idiom fills a 64-bit word. */
  function Smear64(x: nat): nat {
    Or(Smear32(x), Shr(Smear32(x), 32))
  }

  lemma SmearSteps(x: nat)
    ensures TopOnes(Smear32(x), Width(x), 32)
  {
    var k := Width(x);
    TopBit(x);
    assert TopOnes(x, k, 1);
    SmearStep(x, k, 1);
    var a := Or(x, Shr(x, 1));
    SmearStep(a, k, 2);
    var b := Or(a, Shr(a, 2));
    SmearStep(b, k, 4);
    var c := Or(b, Shr(b, 4));
    SmearStep(c, k, 8);
    var d := Or(c, Shr(c, 8));
    SmearStep(d, k, 16);
  }

  /** Right-smearing a number of at most 32 bits gives the all-ones number of the same width. */
  lemma Smear32IsOnes(x: nat)
    requires x < Pow2(32)
    ensures Smear32(x) == Pow2(Width(x)) - 1
  {
    WidthBound(x, 32);
    SmearSteps(x);
    AllOnes(Smear32(x), Width(x), 32);
  }

  lemma Smear64IsOnes(x: nat)
    requires x < Pow2(64)
    ensures Smear64(x) == Pow2(Width(x)) - 1
  {
    WidthBound(x, 64);
    SmearSteps(x);
    SmearStep(Smear32(x), Width(x), 32);
    AllOnes(Smear64(x), Width(x), 64);
  }
}
