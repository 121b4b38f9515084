/** Head and tail indices of a ring: 32-bit numbers that wrap around and are masked when a slot
    is addressed. */
module RingIndex {
  import opened Bits
  import opened RingGeometry

  /** A counter as a 32-bit word. */
  function Word(counter: nat): nat {
    counter % U32
  }

  lemma WordAdd(counter: nat, n: nat)
    ensures Word(Word(counter) + n) == Word(counter + n)
  {
  }

  /** `index & r->mask`. */
  function Slot(index: nat, g: Geometry): nat {
    And(index, g.mask)
  }

  /** RING_QUEUE_FIXED and RING_QUEUE_VARIABLE. */
  datatype Behavior = Fixed | Variable

  /** `capacity + cons_tail - *old_head` in 32 bits. */
  function FreeEntries(g: Geometry, consTail: nat, oldHead: nat): nat {
    (g.capacity + consTail - oldHead) % U32
  }

  /** `prod_tail - *old_head` in 32 bits. */
  function Entries(prodTail: nat, oldHead: nat): nat {
    (prodTail - oldHead) % U32
  }

  /** How many objects a head is moved by. */
  function Granted(n: nat, free: nat, behavior: Behavior): (m: nat)
    ensures m <= n && m <= free
    ensures n <= free ==> m == n
    ensures n > free ==> m == if behavior == Fixed then 0 else free
  {
    if n > free then (if behavior == Fixed then 0 else free) else n
  }

  /** `(prod_tail - cons_tail) & mask`, capped: ring_count. */
  function CountOf(g: Geometry, prodTail: nat, consTail: nat): nat {
    var count := And((prodTail - consTail) % U32, g.mask);
    if count > g.capacity then g.capacity else count
  }

  lemma ModSmall(a: nat, b: nat, m: nat)
    requires m > 0
    ensures (a % m + b) % m == (a + b) % m
  {
    var q, r := (a % m + b) / m, (a % m + b) % m;
    assert a % m + b == q * m + r;
    assert a == a / m * m + a % m;
    assert a / m * m + q * m == (a / m + q) * m;
    DivModUnique(a + b, m, a / m + q, r);
  }

  /** Reducing modulo 2^n first does not matter to what is reduced modulo 2^k. */
  lemma {:induction false} PowerMod(a: nat, n: nat, k: nat)
    requires k <= n
    ensures (a % Pow2(n)) % Pow2(k) == a % Pow2(k)
    decreases n
  {
    if k > 0 {
      var p, q := Pow2(n - 1), Pow2(k - 1);
      HalveMod(a, p);
      HalveMod(a, q);
      HalveMod(a % Pow2(n), q);
      assert a % Pow2(n) == 2 * ((a / 2) % p) + a % 2;
      assert (a % Pow2(n)) / 2 == (a / 2) % p && (a % Pow2(n)) % 2 == a % 2;
      PowerMod(a / 2, n - 1, k - 1);
    }
  }

  ghost function Exponent(g: Geometry): (k: nat)
    requires Sound(g)
    ensures Pow2(k) == g.size && k <= 31
  {
    var k: nat :| Pow2(k) == g.size;
    assert k <= 31 by {
      if k > 31 { Pow2Monotone(31, k); }
    }
    k
  }

  /** Wrapping at 2^32 does not disturb which slot an ever-growing counter stands for. */
  lemma SlotOf(counter: nat, g: Geometry)
    requires Sound(g)
    ensures Slot(Word(counter), g) == counter % g.size < g.size
  {
    BigPowers();
    AndMask(counter % U32, Exponent(g));
    PowerMod(counter, 32, Exponent(g));
  }

  lemma SlotOfWord(index: nat, g: Geometry)
    requires Sound(g) && index < U32
    ensures Slot(index, g) == index % g.size < g.size
  {
    hide IsPow2;
    hide Slot;
    assert index % U32 == index;
    SlotOf(index, g);
  }

  /** The slots of fewer than `size` consecutive counters are different. */
  lemma SlotsDistinct(i: nat, j: nat, size: nat)
    requires i < j < i + size
    ensures i % size != j % size
  {
    if i % size == j % size {
      assert i == i / size * size + i % size && j == j / size * size + j % size;
      LessMul(i / size, j / size, size);
      LessMul(j / size, i / size, size);
    }
  }

  lemma SlotAhead(i: nat, k: nat, size: nat)
    requires k <= size && size > 0
    ensures (i + k) % size == if i % size + k < size then i % size + k else i % size + k - size
  {
    assert i == i / size * size + i % size;
    if i % size + k < size {
      DivModUnique(i + k, size, i / size, i % size + k);
    } else {
      assert (i / size + 1) * size == i / size * size + size;
      DivModUnique(i + k, size, i / size + 1, i % size + k - size);
    }
  }

  /** A difference of counters survives their wrap-around. */
  lemma DifferenceOf(a: nat, b: nat)
    requires b <= a < b + U32
    ensures (a % U32 - b % U32) % U32 == a - b
  {
  }

  lemma FreeIsExact(g: Geometry, ct: nat, ph: nat)
    requires ct <= ph <= ct + g.capacity && g.capacity < U32
    ensures FreeEntries(g, Word(ct), Word(ph)) == g.capacity - (ph - ct)
  {
  }

  lemma EntriesAreExact(pt: nat, ch: nat)
    requires ch <= pt < ch + U32
    ensures Entries(Word(pt), Word(ch)) == pt - ch
  {
  }

  lemma CapacityFits(g: Geometry)
    requires Sound(g)
    ensures g.capacity < g.size < U32
  {
    BigPowers();
  }

  /** A length that fits into the ring survives the mask. */
  lemma CountOfTails(g: Geometry, prodTail: nat, consTail: nat)
    requires Sound(g) && Entries(prodTail, consTail) <= g.capacity
    ensures CountOf(g, prodTail, consTail) == Entries(prodTail, consTail)
  {
    hide And;
    hide IsPow2;
    var e := Entries(prodTail, consTail);
    CapacityFits(g);
    SlotOfWord(e, g);
    DivModUnique(e, g.size, 0, e);
  }

  /** ring_count is exact when its two tails belong to one moment. */
  lemma CountIsExact(g: Geometry, pt: nat, ct: nat)
    requires Sound(g) && ct <= pt <= ct + g.capacity
    ensures CountOf(g, Word(pt), Word(ct)) == pt - ct
  {
    hide And;
    hide IsPow2;
    CapacityFits(g);
    DifferenceOf(pt, ct);
    CountOfTails(g, Word(pt), Word(ct));
  }
}
