/** ring.h and ring_c11_mem.h, called from one thread at a time: the slots are an array, the
    operations update it in place, and the ring is a bounded queue.  RingMachine lets the
    single loads and stores of the two ends interleave. */
module Ring {
  import opened Bits
  import opened RingGeometry
  import opened RingIndex

  /** `n` slots from `head` on, with wrap-around. */
  ghost function Window<T>(slots: seq<T>, head: nat, n: nat): (w: seq<T>)
    requires n <= |slots|
    ensures |w| == n
  {
    seq(n, k requires 0 <= k < n => slots[(head + k) % |slots|])
  }

  /** How far slot `p` lies behind the slot of `head`. */
  ghost function Offset(p: nat, head: nat, size: nat): nat
    requires p < size
  {
    var idx := head % size;
    if idx <= p then p - idx else p + size - idx
  }

  /** The slots with `objs` in the window from `head` on, and everything else as before. */
  ghost function Written<T>(slots: seq<T>, head: nat, objs: seq<T>): (w: seq<T>)
    requires |objs| <= |slots|
    ensures |w| == |slots|
  {
    seq(|slots|, p requires 0 <= p < |slots| =>
      if Offset(p, head, |slots|) < |objs| then objs[Offset(p, head, |slots|)] else slots[p])
  }

  /** The simple modular copy, object k in slot (head + k) mod size, and no other slot touched. */
  lemma WrittenAt<T>(slots: seq<T>, head: nat, objs: seq<T>, k: nat)
    requires |objs| <= |slots| && k < |slots|
    ensures Written(slots, head, objs)[(head + k) % |slots|]
         == if k < |objs| then objs[k] else slots[(head + k) % |slots|]
  {
    SlotAhead(head, k, |slots|);
  }

  /** Dequeue reads back what enqueue wrote, and what was in the ring before it. */
  lemma WindowGrows<T>(slots: seq<T>, tail: nat, n: nat, objs: seq<T>)
    requires n + |objs| <= |slots|
    ensures Window(Written(slots, tail + n, objs), tail, n + |objs|) == Window(slots, tail, n) + objs
  {
    if |slots| > 0 {
      var size := |slots|;
      forall k: nat | k < n + |objs|
        ensures Written(slots, tail + n, objs)[(tail + k) % size] == (Window(slots, tail, n) + objs)[k]
      {
        if k < n {
          var j := size - n + k;
          SlotAhead(tail + k, size, size);
          assert tail + n + j == tail + k + size;
          WrittenAt(slots, tail + n, objs, j);
        } else {
          assert tail + n + (k - n) == tail + k;
          WrittenAt(slots, tail + n, objs, k - n);
        }
      }
    }
  }

  /** Only the slot of the head matters, not its wrap-around. */
  lemma WrapWritten<T>(g: Geometry, slots: seq<T>, head: nat, objs: seq<T>)
    requires Sound(g) && |slots| == g.size && |objs| <= |slots|
    ensures Written(slots, head % U32, objs) == Written(slots, head, objs)
  {
    SlotOf(head, g);
    SlotOfWord(head % U32, g);
  }

  lemma WrapWindow<T>(g: Geometry, slots: seq<T>, head: nat, n: nat)
    requires Sound(g) && |slots| == g.size && n <= |slots|
    ensures Window(slots, head % U32, n) == Window(slots, head, n)
  {
    forall k: nat | k < n
      ensures Window(slots, head % U32, n)[k] == Window(slots, head, n)[k]
    {
      SlotOf(head, g);
      SlotOfWord(head % U32, g);
      ModSmall(head, k, g.size);
      ModSmall(head % U32, k, g.size);
    }
  }

  lemma WindowSplits<T>(slots: seq<T>, tail: nat, n: nat, m: nat)
    requires m <= n <= |slots|
    ensures Window(slots, tail, m) == Window(slots, tail, n)[..m]
    ensures Window(slots, tail + m, n - m) == Window(slots, tail, n)[m..]
  {
    forall k: nat | k < n - m
      ensures Window(slots, tail + m, n - m)[k] == Window(slots, tail, n)[m..][k]
    {
      assert tail + m + k == tail + (m + k);
    }
  }

  lemma EntriesGrow(head: nat, tail: nat, m: nat)
    requires tail < U32 && head < U32 && Entries(head, tail) + m < U32
    ensures Entries((head + m) % U32, tail) == Entries(head, tail) + m
    ensures head == (tail + Entries(head, tail)) % U32
  {
  }

  lemma EntriesShrink(head: nat, tail: nat, m: nat)
    requires tail < U32 && head < U32 && m <= Entries(head, tail)
    ensures Entries(head, (tail + m) % U32) == Entries(head, tail) - m
  {
  }

  lemma QueueGrows<T>(g: Geometry, slots: seq<T>, tail: nat, head: nat, objs: seq<T>)
    requires Sound(g) && |slots| == g.size && tail < U32 && head < U32
    requires Entries(head, tail) + |objs| <= g.capacity
    ensures Entries((head + |objs|) % U32, tail) == Entries(head, tail) + |objs|
    ensures Window(Written(slots, head, objs), tail, Entries(head, tail) + |objs|)
         == Window(slots, tail, Entries(head, tail)) + objs
  {
    hide Window;
    hide Written;
    hide Entries;
    CapacityFits(g);
    hide Sound;
    EntriesGrow(head, tail, |objs|);
    WrapWritten(g, slots, tail + Entries(head, tail), objs);
    WindowGrows(slots, tail, Entries(head, tail), objs);
  }

  lemma QueueShrinks<T>(g: Geometry, slots: seq<T>, tail: nat, head: nat, m: nat)
    requires Sound(g) && |slots| == g.size && tail < U32 && head < U32
    requires m <= Entries(head, tail) <= g.capacity
    ensures Entries(head, (tail + m) % U32) == Entries(head, tail) - m
    ensures Window(slots, tail, Entries(head, tail))
         == Window(slots, tail, m) + Window(slots, (tail + m) % U32, Entries(head, tail) - m)
  {
    hide Window;
    hide Entries;
    CapacityFits(g);
    hide Sound;
    EntriesShrink(head, tail, m);
    var w := Window(slots, tail, Entries(head, tail));
    assert w == w[..m] + w[m..];
    WindowSplits(slots, tail, Entries(head, tail), m);
    WrapWindow(g, slots, tail + m, Entries(head, tail) - m);
  }

  lemma AndOnce(a: nat, b: nat)
    requires b % 2 == 0
    ensures And(a, b) == 2 * And(a / 2, b / 2)
  {
    if a == 0 { assert a / 2 == 0; }
  }

  /** `n & ~3` and `n & 3`. */
  lemma FourAtATime(n: nat)
    requires n < U32
    ensures And(n, U32 - 4) == 4 * (n / 4) && And(n, 3) == n % 4
  {
    hide And;
    hide Pow2;
    SmallPowers();
    AndMask(n, 2);
    BigPowers();
    AndMask(n / 4, 30);
    AndOnce(n, 0xffff_fffc);
    AndOnce(n / 2, 0x7fff_fffe);
    assert n / 2 / 2 == n / 4;
  }

  class Ring<T> {
    const g: Geometry
    const slots: array<T>

    // prod and cons: struct ring_headtail
    var prodHead: nat
    var prodTail: nat
    var consHead: nat
    var consTail: nat

    /** Holds whenever no operation is under way. */
    ghost predicate Valid()
      reads this, slots
    {
      && Sound(g)
      && slots.Length == g.size
      && prodHead == prodTail < U32
      && consHead == consTail < U32
      && Entries(prodTail, consTail) <= g.capacity
    }

    /** The queue. */
    ghost function Contents(): seq<T>
      reads this, slots
      requires Valid()
    {
      Window(slots[..], consTail, Entries(prodTail, consTail))
    }

    /** What ring_init leaves, around the memory that ring_create allocates. */
    constructor (g: Geometry, slots: array<T>)
      requires Sound(g) && slots.Length == g.size
      ensures Valid() && Contents() == []
      ensures this.g == g && this.slots == slots
    {
      this.g, this.slots := g, slots;
      prodHead, consHead := 0, 0;
      prodTail, consTail := 0, 0;
    }

    /** __ring_move_prod_head. */
    method MoveProdHead(n: nat, behavior: Behavior) returns (moved: nat, oldHead: nat, newHead: nat, freeEntries: nat)
      requires Valid() && n < U32
      modifies this`prodHead
      ensures oldHead == old(prodHead) && freeEntries == g.capacity - |old(Contents())|
      ensures moved == Granted(n, freeEntries, behavior)
      ensures prodHead == (oldHead + moved) % U32
      ensures moved > 0 ==> newHead == prodHead
    {
      oldHead := prodHead;
      newHead := oldHead;
      freeEntries := (g.capacity + consTail - oldHead) % U32;
      FreeIsExact();
      moved := n;
      if n > freeEntries {
        moved := if behavior == Fixed then 0 else freeEntries;
      }
      if moved == 0 {
        return;
      }
      newHead := (oldHead + moved) % U32;
      prodHead := newHead;
    }

    lemma FreeIsExact()
      requires Valid()
      ensures FreeEntries(g, consTail, prodTail) == g.capacity - |Contents()|
    {
      BigPowers();
    }

    /** __ring_move_cons_head. */
    method MoveConsHead(n: nat, behavior: Behavior) returns (moved: nat, oldHead: nat, newHead: nat, entries: nat)
      requires Valid() && n < U32
      modifies this`consHead
      ensures oldHead == old(consHead) && entries == |old(Contents())|
      ensures moved == Granted(n, entries, behavior)
      ensures consHead == (oldHead + moved) % U32
      ensures moved > 0 ==> newHead == consHead
    {
      oldHead := consHead;
      newHead := oldHead;
      entries := (prodTail - oldHead) % U32;
      moved := n;
      if n > entries {
        moved := if behavior == Fixed then 0 else entries;
      }
      if moved == 0 {
        return;
      }
      newHead := (oldHead + moved) % U32;
      consHead := newHead;
    }

    /** The first `i` objects are in place and every other slot is as it was. */
    ghost predicate Copied(was: seq<T>, first: nat, objs: array<T>, i: nat)
      reads slots, objs
    {
      && slots.Length == |was| > first
      && i <= objs.Length
      && forall p :: 0 <= p < slots.Length ==>
           var o := if first <= p then p - first else p + slots.Length - first;
           slots[p] == if o < i then objs[o] else was[p]
    }

    /** One `ring[idx] = obj_table[i]`. */
    method Store(idx: nat, objs: array<T>, i: nat, ghost was: seq<T>, ghost first: nat)
      requires i < objs.Length && objs != slots && idx < slots.Length && i < slots.Length
      requires Copied(was, first, objs, i)
      requires idx == if first + i < slots.Length then first + i else first + i - slots.Length
      modifies slots
      ensures Copied(was, first, objs, i + 1)
    {
      slots[idx] := objs[i];
    }

    /** ENQUEUE_PTRS: the unrolled copy, or two loops where the window wraps, is the modular
        copy. */
    method EnqueuePtrs(head: nat, objs: array<T>, n: nat)
      requires Sound(g) && slots.Length == g.size && head < U32
      requires n <= g.capacity && n <= objs.Length && objs != slots
      modifies slots
      ensures slots[..] == Written(old(slots[..]), head, objs[..n])
    {
      hide And;
      hide Copied;
      hide Fetched;
      hide Written;
      hide Window;
      hide Sound;
      hide Pow2;
      var size := g.size;
      var idx := And(head, g.mask);
      Bounds(head, n);
      ghost var first, was := idx, slots[..];
      CopiedNothing(first, objs);
      var i := 0;
      if idx + n < size {
        ghost var rounds := 0;
        while i < And(n, U32 - 4)
          invariant i == 4 * rounds && rounds <= n / 4 && idx == first + i
          invariant Copied(was, first, objs, i)
        {
          Store(idx, objs, i, was, first);
          Store(idx + 1, objs, i + 1, was, first);
          Store(idx + 2, objs, i + 2, was, first);
          Store(idx + 3, objs, i + 3, was, first);
          i, idx, rounds := i + 4, idx + 4, rounds + 1;
        }
        var rest := And(n, 3);
        if rest >= 3 {
          Store(idx, objs, i, was, first);
          i, idx := i + 1, idx + 1;
        }
        if rest >= 2 {
          Store(idx, objs, i, was, first);
          i, idx := i + 1, idx + 1;
        }
        if rest >= 1 {
          Store(idx, objs, i, was, first);
          i, idx := i + 1, idx + 1;
        }
      } else {
        while idx < size
          invariant idx == first + i && i <= n && idx <= size
          invariant Copied(was, first, objs, i)
        {
          Store(idx, objs, i, was, first);
          i, idx := i + 1, idx + 1;
        }
        idx := 0;
        while i < n
          invariant size - first <= i <= n && idx == i - (size - first)
          invariant Copied(was, first, objs, i)
        {
          Store(idx, objs, i, was, first);
          i, idx := i + 1, idx + 1;
        }
      }
      CopiedAll(was, head, objs, n);
    }

    lemma Bounds(head: nat, n: nat)
      requires Sound(g) && head < U32 && n <= g.capacity
      ensures And(head, g.mask) < g.size && n < g.size < U32
      ensures And(n, U32 - 4) == 4 * (n / 4) && And(n, 3) == n - 4 * (n / 4) < 4
    {
      hide And;
      BigPowers();
      FourAtATime(n);
      SlotOfWord(head, g);
    }

    lemma CopiedNothing(first: nat, objs: array<T>)
      requires first < slots.Length
      ensures Copied(slots[..], first, objs, 0)
    {
    }

    lemma CopiedAt(was: seq<T>, first: nat, objs: array<T>, n: nat, p: nat)
      requires p < slots.Length && Copied(was, first, objs, n)
      ensures slots[p] == if Offset(p, first, slots.Length) < n then objs[Offset(p, first, slots.Length)] else was[p]
    {
      DivModUnique(first, slots.Length, 0, first);
    }

    lemma CopiedAll(was: seq<T>, head: nat, objs: array<T>, n: nat)
      requires Sound(g) && slots.Length == g.size && head < U32
      requires n <= objs.Length && n <= slots.Length
      requires Copied(was, And(head, g.mask), objs, n)
      ensures slots[..] == Written(was, head, objs[..n])
    {
      hide And;
      hide IsPow2;
      SlotOfWord(head, g);
      hide Sound;
      hide Copied;
      assert head % slots.Length == And(head, g.mask);
      forall p: nat | p < slots.Length
        ensures slots[..][p] == Written(was, head, objs[..n])[p]
      {
        CopiedAt(was, And(head, g.mask), objs, n, p);
        SameOffset(p, head, slots.Length);
      }
    }

    lemma SameOffset(p: nat, head: nat, size: nat)
      requires p < size
      ensures Offset(p, head % size, size) == Offset(p, head, size)
    {
      ModSmall(head, 0, size);
    }

    /** The first `i` objects have been fetched and the rest of the table is as it was. */
    ghost predicate Fetched(objs: array<T>, was: seq<T>, first: nat, i: nat)
      reads slots, objs
    {
      && objs.Length == |was|
      && i <= slots.Length && i <= objs.Length && first < slots.Length
      && (forall k :: 0 <= k < i ==> objs[k] == slots[if first + k < slots.Length then first + k else first + k - slots.Length])
      && (forall k :: i <= k < objs.Length ==> objs[k] == was[k])
    }

    /** One `obj_table[i] = ring[idx]`. */
    method Fetch(idx: nat, objs: array<T>, i: nat, ghost was: seq<T>, ghost first: nat)
      requires i < objs.Length && objs != slots && idx < slots.Length && i < slots.Length
      requires Fetched(objs, was, first, i)
      requires idx == if first + i < slots.Length then first + i else first + i - slots.Length
      modifies objs
      ensures Fetched(objs, was, first, i + 1)
    {
      objs[i] := slots[idx];
    }

    /** DEQUEUE_PTRS. */
    method DequeuePtrs(head: nat, objs: array<T>, n: nat)
      requires Sound(g) && slots.Length == g.size && head < U32
      requires n <= g.capacity && n <= objs.Length && objs != slots
      modifies objs
      ensures objs[..n] == Window(slots[..], head, n)
      ensures objs[n..] == old(objs[..])[n..]
    {
      hide And;
      hide Copied;
      hide Fetched;
      hide Written;
      hide Window;
      hide Sound;
      hide Pow2;
      var size := g.size;
      var idx := And(head, g.mask);
      Bounds(head, n);
      ghost var first, was := idx, objs[..];
      FetchedNothing(objs, first);
      var i := 0;
      if idx + n < size {
        ghost var rounds := 0;
        while i < And(n, U32 - 4)
          invariant i == 4 * rounds && rounds <= n / 4 && idx == first + i
          invariant Fetched(objs, was, first, i)
        {
          Fetch(idx, objs, i, was, first);
          Fetch(idx + 1, objs, i + 1, was, first);
          Fetch(idx + 2, objs, i + 2, was, first);
          Fetch(idx + 3, objs, i + 3, was, first);
          i, idx, rounds := i + 4, idx + 4, rounds + 1;
        }
        var rest := And(n, 3);
        if rest >= 3 {
          Fetch(idx, objs, i, was, first);
          i, idx := i + 1, idx + 1;
        }
        if rest >= 2 {
          Fetch(idx, objs, i, was, first);
          i, idx := i + 1, idx + 1;
        }
        if rest >= 1 {
          Fetch(idx, objs, i, was, first);
          i, idx := i + 1, idx + 1;
        }
      } else {
        while idx < size
          invariant idx == first + i && i <= n && idx <= size
          invariant Fetched(objs, was, first, i)
        {
          Fetch(idx, objs, i, was, first);
          i, idx := i + 1, idx + 1;
        }
        idx := 0;
        while i < n
          invariant size - first <= i <= n && idx == i - (size - first)
          invariant Fetched(objs, was, first, i)
        {
          Fetch(idx, objs, i, was, first);
          i, idx := i + 1, idx + 1;
        }
      }
      FetchedAll(objs, was, head, n);
    }

    lemma FetchedNothing(objs: array<T>, first: nat)
      requires first < slots.Length
      ensures Fetched(objs, objs[..], first, 0)
    {
    }

    lemma FetchedAll(objs: array<T>, was: seq<T>, head: nat, n: nat)
      requires Sound(g) && slots.Length == g.size && head < U32
      requires Fetched(objs, was, And(head, g.mask), n)
      ensures objs[..n] == Window(slots[..], head, n)
      ensures objs[n..] == was[n..]
    {
      hide And;
      hide IsPow2;
      SlotOfWord(head, g);
      forall k: nat | k < n
        ensures objs[k] == Window(slots[..], head, n)[k]
      {
        SlotAhead(head, k, slots.Length);
      }
    }

    /** __ring_do_enqueue: as many objects as Granted says join the queue at its end, and the
        room that is left is reported. */
    method DoEnqueue(objs: array<T>, n: nat, behavior: Behavior) returns (done: nat, freeSpace: nat)
      requires Valid() && n <= objs.Length && n < U32 && objs != slots
      modifies this`prodHead, this`prodTail, slots
      ensures Valid()
      ensures done == Granted(n, g.capacity - |old(Contents())|, behavior)
      ensures Contents() == old(Contents()) + objs[..done]
      ensures freeSpace == g.capacity - |Contents()|
    {
      hide Entries;
      hide Granted;
      hide Sound;
      hide Window;
      hide Written;
      var oldHead, newHead, freeEntries;
      done, oldHead, newHead, freeEntries := MoveProdHead(n, behavior);
      freeSpace := freeEntries - done;
      if done == 0 {
        return;
      }
      EnqueuePtrs(oldHead, objs, done);
      prodTail := newHead;
      ghost var table := objs[..done];
      QueueGrows(g, old(slots[..]), consTail, oldHead, table);
    }

    /** __ring_do_dequeue: the first objects of the queue leave it, in order. */
    method DoDequeue(objs: array<T>, n: nat, behavior: Behavior) returns (done: nat, available: nat)
      requires Valid() && n <= objs.Length && n < U32 && objs != slots
      modifies this`consHead, this`consTail, objs
      ensures Valid()
      ensures done == Granted(n, |old(Contents())|, behavior)
      ensures old(Contents()) == objs[..done] + Contents()
      ensures objs[done..] == old(objs[..])[done..]
      ensures available == |Contents()|
    {
      hide Entries;
      hide Granted;
      hide Sound;
      hide Window;
      var oldHead, newHead, entries;
      done, oldHead, newHead, entries := MoveConsHead(n, behavior);
      available := entries - done;
      if done == 0 {
        return;
      }
      DequeuePtrs(oldHead, objs, done);
      consTail := newHead;
      QueueShrinks(g, slots[..], oldHead, prodTail, done);
    }

    /** ring_count. */
    method Count() returns (count: nat)
      requires Valid()
      ensures count == |Contents()|
    {
      hide And;
      hide IsPow2;
      var prodTail := this.prodTail;
      var consTail := this.consTail;
      CountOfTails(g, prodTail, consTail);
      count := And((prodTail - consTail) % U32, g.mask);
      if count > g.capacity {
        count := g.capacity;
      }
    }

    /** ring_free_count. */
    method FreeCount() returns (count: nat)
      requires Valid()
      ensures count == g.capacity - |Contents()|
    {
      var used := Count();
      count := g.capacity - used;
    }
  }
}
