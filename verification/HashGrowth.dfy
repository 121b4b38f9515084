/** hmap.c and hmap.h: how large a hash table is, and what growing it costs. */
module HashGrowth {
  import opened Bits

  /** A power of two minus one. */
  ghost predicate IsMask(mask: nat) {
    IsPow2(mask + 1)
  }

  /** `hash & mask`. */
  function Bucket(hash: nat, mask: nat): nat {
    And(hash, mask)
  }

  lemma BucketIsRemainder(hash: nat, mask: nat)
    requires IsMask(mask)
    ensures Bucket(hash, mask) == hash % (mask + 1)
  {
    var k: nat :| Pow2(k) == mask + 1;
    AndMask(hash, k);
  }

  lemma BucketBound(hash: nat, mask: nat)
    requires IsMask(mask)
    ensures Bucket(hash, mask) <= mask
  {
    BucketIsRemainder(hash, mask);
  }

  /** What calc_mask computes. */
  function CalcMask(capacity: nat): nat {
    var mask := Smear64(capacity / 2);
    Or(mask, 2 * And(mask, 1))
  }

  lemma OrTwo(q: nat)
    ensures Or(4 * q + 3, 2) == 4 * q + 3
  {
    OrZero(q);
    assert (4 * q + 3) / 2 == 2 * q + 1 && (2 * q + 1) / 2 == q;
    assert Or(2 * q + 1, 1) == 2 * Or(q, 0) + 1;
  }

  lemma WidthAtLeastTwo(x: nat)
    requires x >= 2
    ensures Width(x) >= 2 && Pow2(Width(x)) == 4 * Pow2(Width(x) - 2)
  {
    assert Width(x) == 1 + Width(x / 2) && x / 2 >= 1;
  }

  lemma WidthOfPower(x: nat)
    requires IsPow2(x)
    ensures Pow2(Width(x)) == 2 * x
  {
    var j: nat :| Pow2(j) == x;
    if Width(x) > j + 1 { Pow2Monotone(j, Width(x) - 1); }
    if Width(x) <= j {
      if Width(x) < j { Pow2Monotone(Width(x), j); }
    }
  }

  lemma SmallMasks(capacity: nat)
    requires capacity < 4
    ensures CalcMask(capacity) == if capacity < 2 then 0 else 3
  {
    var x := capacity / 2;
    assert x < Pow2(64) by { BigPowers(); Pow2Monotone(32, 64); }
    Smear64IsOnes(x);
    assert Pow2(Width(x)) - 1 == x;
    hide Smear64;
    assert Or(0, 2 * And(0, 1)) == 0 && Or(1, 2 * And(1, 1)) == 3;
  }

  lemma LastStep(q: nat)
    ensures Or(4 * q + 3, 2 * And(4 * q + 3, 1)) == 4 * q + 3
  {
    AndMask(4 * q + 3, 1);
    SmallPowers();
    OrTwo(q);
  }

  lemma LargeMask(capacity: nat)
    requires 4 <= capacity < Pow2(64)
    ensures CalcMask(capacity) == Pow2(Width(capacity / 2)) - 1
  {
    hide Smear64;
    hide Or;
    hide And;
    hide Pow2;
    hide Width;
    var k := Width(capacity / 2);
    Smear64IsOnes(capacity / 2);
    WidthAtLeastTwo(capacity / 2);
    var q := Pow2(k - 2) - 1;
    assert Pow2(k) - 1 == 4 * q + 3;
    LastStep(q);
  }

  /** The mask is all ones, never 1, at least half the capacity, and no more than it needs. */
  lemma CalcMaskIs(capacity: nat)
    requires capacity < Pow2(64)
    ensures IsMask(CalcMask(capacity)) && CalcMask(capacity) != 1
    ensures capacity / 2 <= CalcMask(capacity)
    ensures capacity < 2 ==> CalcMask(capacity) == 0
    ensures capacity in {2, 3} ==> CalcMask(capacity) == 3
    ensures capacity >= 4 ==> CalcMask(capacity) + 1 <= 2 * (capacity / 2)
    ensures capacity >= 4 && IsPow2(capacity / 2) ==> CalcMask(capacity) + 1 == 2 * (capacity / 2)
  {
    hide CalcMask;
    if capacity < 4 {
      SmallMasks(capacity);
      assert Pow2(0) == 1 && Pow2(2) == 4;
    } else {
      LargeMask(capacity);
      WidthAtLeastTwo(capacity / 2);
      if IsPow2(capacity / 2) { WidthOfPower(capacity / 2); }
    }
  }

  /** calc_mask. */
  method CalculateMask(capacity: nat) returns (mask: nat)
    ensures mask == CalcMask(capacity)
  {
    mask := capacity / 2;
    mask := Or(mask, Shr(mask, 1));
    mask := Or(mask, Shr(mask, 2));
    mask := Or(mask, Shr(mask, 4));
    mask := Or(mask, Shr(mask, 8));
    mask := Or(mask, Shr(mask, 16));
    mask := Or(mask, Shr(mask, 32));
    mask := Or(mask, 2 * And(mask, 1));
  }

  // ----- the cost of growing

  /** The mask after an insertion that makes `n` nodes. */
  function GrownMask(n: nat, mask: nat): nat {
    if n / 2 > mask && CalcMask(n) > mask then CalcMask(n) else mask
  }

  /** The numbers of nodes and buckets of a table, and the history of a run: insertions, and
      nodes moved to another bucket array. */
  datatype Cost = Cost(n: nat, mask: nat, inserts: nat, moved: nat)

  datatype Op = Insert | Remove

  function Empty(): Cost { Cost(0, 0, 0, 0) }

  function Apply(c: Cost, op: Op): Cost {
    match op
    case Insert =>
      var mask := GrownMask(c.n + 1, c.mask);
      Cost(c.n + 1, mask, c.inserts + 1, c.moved + if mask != c.mask then c.n + 1 else 0)
    case Remove => if c.n == 0 then c else c.(n := c.n - 1)
  }

  function ApplyAll(c: Cost, ops: seq<Op>): Cost
    decreases |ops|
  {
    if ops == [] then c else ApplyAll(Apply(c, ops[0]), ops[1..])
  }

  /** Twice the nodes beyond one a bucket: saved up for the next resize. */
  function Saved(c: Cost): nat {
    if c.n > c.mask + 1 then 2 * (c.n - (c.mask + 1)) else 0
  }

  ghost predicate Paid(c: Cost) {
    && IsMask(c.mask) && c.mask != 1
    && c.n <= 2 * c.mask + 1
    && c.n <= c.inserts
    && c.moved + Saved(c) <= 2 * c.inserts
  }

  lemma BucketsArePowerOfTwo(mask: nat)
    requires IsMask(mask)
    ensures IsPow2(mask + 1)
  {
  }

  lemma ApplyPaid(c: Cost, op: Op)
    requires Paid(c) && c.inserts + 1 < Pow2(64)
    ensures Paid(Apply(c, op))
  {
    hide CalcMask;
    hide IsMask;
    hide Pow2;
    var n := c.n + 1;
    CalcMaskIs(n);
    if op == Insert && n / 2 > c.mask {
      assert n == 2 * c.mask + 2 && n / 2 == c.mask + 1;
      BucketsArePowerOfTwo(c.mask);
    }
  }

  /** Over any run of insertions and removals from the empty table, after every insertion there
      are at most 2 * mask + 1 nodes, and all resizes together have moved at most two nodes for
      each insertion. */
  lemma {:induction false} GrowthIsAmortised(ops: seq<Op>)
    requires |ops| < Pow2(64)
    ensures var c := ApplyAll(Empty(), ops);
            c.n <= 2 * c.mask + 1 && c.moved <= 2 * c.inserts
  {
    EmptyIsPaid();
    AllPaid(Empty(), ops);
  }

  lemma EmptyIsPaid()
    ensures Paid(Empty())
  {
    assert Pow2(0) == 1;
  }

  lemma {:induction false} AllPaid(c: Cost, ops: seq<Op>)
    requires Paid(c) && c.inserts + |ops| < Pow2(64)
    ensures Paid(ApplyAll(c, ops))
    decreases |ops|
  {
    hide Paid;
    hide Pow2;
    hide CalcMask;
    if ops != [] {
      ApplyPaid(c, ops[0]);
      AllPaid(Apply(c, ops[0]), ops[1..]);
    }
  }
}
