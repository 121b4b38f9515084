/** ring.c: the size, mask and capacity of a ring. */
module RingGeometry {
  import opened Bits

  const RING_SZ_MASK: nat := 0x7fffffff

  /** The three fields of struct ring that never change after ring_init. */
  datatype Geometry = Geometry(size: nat, mask: nat, capacity: nat)

  /** What every operation on a ring relies on. */
  ghost predicate Sound(g: Geometry) {
    && IsPow2(g.size)
    && g.size <= Pow2(31)
    && g.mask == g.size - 1
    && g.capacity < g.size
  }

  /** FATAL ends the program. */
  datatype Made = Fatal | Made(g: Geometry)

  ghost predicate LeastPower(x: nat, n: nat) {
    && IsPow2(x)
    && n <= x
    && forall k: nat :: n <= Pow2(k) ==> x <= Pow2(k)
  }

  lemma LeastPowerIs(n: nat)
    requires n > 0
    ensures LeastPower(Pow2(Width(n - 1)), n)
  {
    forall k: nat | n <= Pow2(k)
      ensures Pow2(Width(n - 1)) <= Pow2(k)
    {
      WidthBound(n - 1, k);
      if Width(n - 1) < k { Pow2Monotone(Width(n - 1), k); }
    }
  }

  lemma WidthOfWord(x: nat)
    requires x < U32
    ensures Pow2(Width(x)) <= Pow2(32)
    ensures Pow2(Width(x)) == Pow2(32) <==> Pow2(31) <= x
  {
    BigPowers();
    WidthBound(x, 32);
    if x < Pow2(31) { WidthBound(x, 31); }
    if Width(x) < 31 { Pow2Monotone(Width(x), 31); }
    if Width(x) < 32 { Pow2Monotone(Width(x), 32); }
  }

  /** align32pow2, with the wrap-around of `x--` and `x + 1`: the least power of two that is not
      below the argument, or 0 where there is none in 32 bits (and for 0). */
  method Align32Pow2(count: nat) returns (x: nat)
    requires count < U32
    ensures x == 0 <==> count == 0 || count > Pow2(31)
    ensures x != 0 ==> LeastPower(x, count)
  {
    hide Or;
    hide Shr;
    hide Width;
    x := (count - 1) % U32;
    ghost var start := x;
    x := Or(x, Shr(x, 1));
    x := Or(x, Shr(x, 2));
    x := Or(x, Shr(x, 4));
    x := Or(x, Shr(x, 8));
    x := Or(x, Shr(x, 16));
    assert x == Smear32(start);
    BigPowers();
    Smear32IsOnes(start);
    WidthOfWord(start);
    if count > 0 { LeastPowerIs(count); }
    x := (x + 1) % U32;
  }

  /** The POWEROF2 macro on 32 bits. */
  predicate PowerOf2(x: nat)
    requires x < U32
  {
    And((x - 1) % U32, x) == 0
  }

  lemma {:induction false} AndSelf(x: nat)
    ensures And(x, x) == x
  {
    if x > 0 { AndSelf(x / 2); }
  }

  lemma {:induction false} AndPredecessor(x: nat)
    requires x > 0
    ensures And(x - 1, x) == 0 <==> IsPow2(x)
  {
    if x == 1 {
      assert Pow2(0) == 1;
    } else if x % 2 == 0 {
      assert (x - 1) / 2 == x / 2 - 1;
      AndPredecessor(x / 2);
      if IsPow2(x / 2) {
        var k: nat :| Pow2(k) == x / 2;
        assert Pow2(k + 1) == x;
      }
      if IsPow2(x) {
        var k: nat :| Pow2(k) == x;
        assert Pow2(k - 1) == x / 2;
      }
    } else {
      AndSelf(x / 2);
      assert (x - 1) / 2 == x / 2;
    }
  }

  /** The macro accepts the powers of two, and also 0. */
  lemma PowerOf2Accepts(x: nat)
    requires x < U32
    ensures PowerOf2(x) <==> x == 0 || IsPow2(x)
  {
    if x == 0 { AndZero(U32 - 1); } else { AndPredecessor(x); }
  }

  /** ring_init.  In exact-size mode the size is the least power of two above the capacity that
      was asked for; otherwise the size is what was asked for and one slot stays free. */
  method Init(count: nat, exact: bool) returns (made: Made)
    requires count < U32
    ensures made.Fatal? <==> !exact && (count > RING_SZ_MASK || !(count == 0 || IsPow2(count)))
    ensures made.Made? ==> (Sound(made.g) <==> if exact then count < Pow2(31) else count > 0)
    ensures made.Made? && exact && count < Pow2(31) ==> made.g.capacity == count && LeastPower(made.g.size, count + 1)
    ensures made.Made? && !exact && count > 0 ==> made.g.size == count && made.g.capacity == count - 1
  {
    hide And;
    hide Width;
    hide Or;
    BigPowers();
    if exact {
      var size := Align32Pow2((count + 1) % U32);
      made := Made(Geometry(size, (size - 1) % U32, count));
      if count < Pow2(31) {
        assert LeastPower(size, count + 1);
        assert count + 1 <= Pow2(31);
      } else {
        assert size == 0;
        NoZeroPower();
      }
    } else {
      PowerOf2Accepts(count);
      if !PowerOf2(count) || count > RING_SZ_MASK {
        return Fatal;
      }
      made := Made(Geometry(count, (count - 1) % U32, (count - 1) % U32));
      if count == 0 { NoZeroPower(); }
    }
  }

  lemma NoZeroPower()
    ensures !IsPow2(0)
  {
  }

  /** ring_create: the memory is sized for a rounded-up count, by a function with its own check,
      before ring_init is called.  A capacity from 2^30 up to 2^31 is refused; from 2^31 on the
      rounded count is 0 and the check passes, so a ring whose geometry is not sound results. */
  method Create(count: nat, exact: bool) returns (made: Made)
    requires count < U32
    ensures exact ==> (made.Fatal? <==> Pow2(30) <= count < Pow2(31))
    ensures !exact ==> (made.Fatal? <==> count > RING_SZ_MASK || !(count == 0 || IsPow2(count)))
    ensures made.Made? ==> (Sound(made.g) <==> if exact then count < Pow2(30) else count > 0)
    ensures made.Made? && exact && count < Pow2(30) ==> made.g.capacity == count && LeastPower(made.g.size, count + 1)
    ensures made.Made? && !exact && count > 0 ==> made.g.size == count && made.g.capacity == count - 1
  {
    hide And;
    hide Width;
    hide Or;
    BigPowers();
    assert Pow2(30) == 0x4000_0000;
    var rounded := count;
    if exact {
      rounded := Align32Pow2((count + 1) % U32);
    }
    PowerOf2Accepts(rounded);
    if exact && count < Pow2(30) {
      assert rounded <= Pow2(30);
    }
    if !PowerOf2(rounded) || rounded > RING_SZ_MASK {
      return Fatal;
    }
    if exact && Pow2(30) <= count < Pow2(31) {
      assert rounded >= count + 1;
      var k: nat :| Pow2(k) == rounded;
      if k > 30 { Pow2Monotone(30, k); } else if k < 30 { Pow2Monotone(k, 30); }
      assert false;
    }
    made := Init(count, exact);
  }
}
