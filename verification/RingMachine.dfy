/** The ring under every interleaving of one producer and one consumer: each load and each store
    of __ring_do_enqueue, __ring_do_dequeue and ring_count is a step of its own, and the steps of
    the two ends alternate in any way.  The head moves are plain stores, so one producer and one
    consumer is a hypothesis: it is built into the shape of the machine. */
module RingMachine {
  import opened Bits
  import opened RingGeometry
  import opened RingIndex

  /** Where the producer is: before its next load or store. */
  datatype Producer<T> =
    | PIdle
    | PCalled(objs: seq<T>, behavior: Behavior)
    | PHeadRead(objs: seq<T>, behavior: Behavior, oldHead: nat)
    | PGranted(objs: seq<T>, oldHead: nat, freeEntries: nat)
    | PCopying(objs: seq<T>, oldHead: nat, freeEntries: nat, copied: nat)
    | PCountCalled
    | PCounting(prodTail: nat)

  /** Where the consumer is.  `exact` is history: the length of the queue at the load. */
  datatype Consumer<T> =
    | CIdle
    | CCalled(n: nat, behavior: Behavior)
    | CHeadRead(n: nat, behavior: Behavior, oldHead: nat)
    | CGranted(n: nat, oldHead: nat, entries: nat)
    | CCopying(n: nat, oldHead: nat, entries: nat, got: seq<T>)
    | CCountCalled
    | CCounting(prodTail: nat, exact: nat)

  /** The shared words and slots, the two ends, and the history: every object an enqueue has
      taken on, how many of them are published, how many the consumer has claimed, and every
      object a dequeue has returned. */
  datatype Machine<T> = Machine(
    g: Geometry, slots: seq<T>,
    prodHead: nat, prodTail: nat, consHead: nat, consTail: nat,
    producer: Producer<T>, consumer: Consumer<T>,
    accepted: seq<T>, published: nat, claimed: nat, delivered: seq<T>)

  datatype Action<T> =
    | CallEnqueue(objs: seq<T>, behavior: Behavior)
    | CallDequeue(n: nat, behavior: Behavior)
    | CallProducerCount
    | CallConsumerCount
    | ProducerStep
    | ConsumerStep

  /** What a step returns to a caller, if it is the last of its operation. */
  datatype Event<T> =
    | Silent
    | Enqueued(objs: seq<T>, freeSpace: nat)
    | Refused(offered: nat, freeSpace: nat)
    | Dequeued(objs: seq<T>, available: nat)
    | NothingToTake(asked: nat, available: nat)
    | ProducerCounted(count: nat)
    | ConsumerCounted(count: nat)

  /** A ring fresh from ring_create; the slots hold anything. */
  function Created<T>(g: Geometry, slots: seq<T>): Machine<T> {
    Machine(g, slots, 0, 0, 0, 0, PIdle, CIdle, [], 0, 0, [])
  }

  /** The bounded queue that the ring implements: published and not yet taken. */
  function Queue<T>(m: Machine<T>): seq<T>
    requires |m.delivered| <= m.published <= |m.accepted|
  {
    m.accepted[|m.delivered|..m.published]
  }

  // ----- the steps

  function ProducerNext<T>(m: Machine<T>): (Machine<T>, Event<T>)
    requires Inv(m)
  {
    match m.producer
    case PIdle => (m, Silent)
    case PCalled(objs, behavior) => (m.(producer := PHeadRead(objs, behavior, m.prodHead)), Silent)
    case PHeadRead(objs, behavior, oldHead) =>
      var free := FreeEntries(m.g, m.consTail, oldHead);
      var n := Granted(|objs|, free, behavior);
      if n == 0 then (m.(producer := PIdle), Refused(|objs|, free))
      else (m.(producer := PGranted(objs[..n], oldHead, free)), Silent)
    case PGranted(objs, oldHead, free) =>
      (m.(prodHead := Word(oldHead + |objs|), producer := PCopying(objs, oldHead, free, 0),
          accepted := m.accepted + objs), Silent)
    case PCopying(objs, oldHead, free, k) =>
      if k < |objs| then
        var slot := Slot(Word(oldHead + k), m.g);
        SlotOf(oldHead + k, m.g);
        (m.(slots := m.slots[slot := objs[k]], producer := PCopying(objs, oldHead, free, k + 1)), Silent)
      else
        (m.(prodTail := Word(oldHead + |objs|), producer := PIdle,
            published := m.published + |objs|), Enqueued(objs, free - |objs|))
    case PCountCalled => (m.(producer := PCounting(m.prodTail)), Silent)
    case PCounting(prodTail) => (m.(producer := PIdle), ProducerCounted(CountOf(m.g, prodTail, m.consTail)))
  }

  function ConsumerNext<T>(m: Machine<T>): (Machine<T>, Event<T>)
    requires Inv(m)
  {
    match m.consumer
    case CIdle => (m, Silent)
    case CCalled(n, behavior) => (m.(consumer := CHeadRead(n, behavior, m.consHead)), Silent)
    case CHeadRead(asked, behavior, oldHead) =>
      var entries := Entries(m.prodTail, oldHead);
      var n := Granted(asked, entries, behavior);
      if n == 0 then (m.(consumer := CIdle), NothingToTake(asked, entries))
      else (m.(consumer := CGranted(n, oldHead, entries)), Silent)
    case CGranted(n, oldHead, entries) =>
      (m.(consHead := Word(oldHead + n), consumer := CCopying(n, oldHead, entries, []),
          claimed := m.claimed + n), Silent)
    case CCopying(n, oldHead, entries, got) =>
      if |got| < n then
        var slot := Slot(Word(oldHead + |got|), m.g);
        SlotOf(oldHead + |got|, m.g);
        (m.(consumer := CCopying(n, oldHead, entries, got + [m.slots[slot]])), Silent)
      else
        (m.(consTail := Word(oldHead + n), consumer := CIdle,
            delivered := m.delivered + got), Dequeued(got, entries - n))
    case CCountCalled => (m.(consumer := CCounting(m.prodTail, |Queue(m)|)), Silent)
    case CCounting(prodTail, exact) => (m.(consumer := CIdle), ConsumerCounted(CountOf(m.g, prodTail, m.consTail)))
  }

  /** Any action in any state: a call is taken when its end is idle, and ignored otherwise. */
  function Next<T>(m: Machine<T>, a: Action<T>): (Machine<T>, Event<T>)
    requires Inv(m)
  {
    match a
    case ProducerStep => ProducerNext(m)
    case ConsumerStep => ConsumerNext(m)
    case CallEnqueue(objs, behavior) =>
      (if m.producer == PIdle && |objs| < U32 then m.(producer := PCalled(objs, behavior)) else m, Silent)
    case CallDequeue(n, behavior) =>
      (if m.consumer == CIdle && n < U32 then m.(consumer := CCalled(n, behavior)) else m, Silent)
    case CallProducerCount => (if m.producer == PIdle then m.(producer := PCountCalled) else m, Silent)
    case CallConsumerCount => (if m.consumer == CIdle then m.(consumer := CCountCalled) else m, Silent)
  }

  // ----- the invariant

  /** The stored words are the unbounded counters modulo 2^32, and these are in order. */
  ghost predicate Counters<T>(m: Machine<T>) {
    && |m.delivered| <= m.claimed <= m.published <= |m.accepted| <= |m.delivered| + m.g.capacity
    && m.prodHead == Word(|m.accepted|)
    && m.prodTail == Word(m.published)
    && m.consHead == Word(m.claimed)
    && m.consTail == Word(|m.delivered|)
  }

  ghost predicate ProducerOk<T>(m: Machine<T>)
    requires Counters(m)
  {
    match m.producer
    case PIdle => m.published == |m.accepted|
    case PCalled(objs, _) => m.published == |m.accepted|
    case PHeadRead(objs, _, oldHead) => m.published == |m.accepted| && oldHead == m.prodHead
    case PGranted(objs, oldHead, free) =>
      && m.published == |m.accepted| && oldHead == m.prodHead
      && 0 < |objs| <= free <= m.g.capacity - |Queue(m)|
    case PCopying(objs, oldHead, free, k) =>
      && |m.accepted| == m.published + |objs| && m.accepted[m.published..] == objs
      && oldHead == m.prodTail
      && k <= |objs| && 0 < |objs| <= free <= m.g.capacity - |Queue(m)|
    case PCountCalled => m.published == |m.accepted|
    case PCounting(prodTail) => m.published == |m.accepted| && prodTail == m.prodTail
  }

  ghost predicate ConsumerOk<T>(m: Machine<T>)
    requires Counters(m)
  {
    match m.consumer
    case CIdle => m.claimed == |m.delivered|
    case CCalled(_, _) => m.claimed == |m.delivered|
    case CHeadRead(_, _, oldHead) => m.claimed == |m.delivered| && oldHead == m.consHead
    case CGranted(n, oldHead, entries) =>
      && m.claimed == |m.delivered| && oldHead == m.consHead
      && 0 < n <= entries <= |Queue(m)|
    case CCopying(n, oldHead, entries, got) =>
      && m.claimed == |m.delivered| + n && oldHead == m.consTail
      && |got| <= n && 0 < n <= entries <= |Queue(m)|
      && got == m.accepted[|m.delivered|..|m.delivered| + |got|]
    case CCountCalled => m.claimed == |m.delivered|
    case CCounting(prodTail, exact) =>
      && m.claimed == |m.delivered|
      && exact <= |Queue(m)| && prodTail == Word(|m.delivered| + exact)
  }

  /** How far the slots are filled. */
  function Filled<T>(m: Machine<T>): nat {
    m.published + if m.producer.PCopying? then m.producer.copied else 0
  }

  /** Nothing that may still be read has been overwritten. */
  ghost predicate SlotsOk<T>(m: Machine<T>)
    requires Sound(m.g)
  {
    && |m.slots| == m.g.size
    && Filled(m) <= |m.accepted|
    && forall i: nat :: |m.delivered| <= i < Filled(m) ==> InPlace(m, i)
  }

  ghost predicate InPlace<T>(m: Machine<T>, i: nat)
    requires Sound(m.g) && |m.slots| == m.g.size && i < |m.accepted|
  {
    m.slots[i % m.g.size] == m.accepted[i]
  }

  ghost predicate Inv<T>(m: Machine<T>) {
    && Sound(m.g)
    && Counters(m)
    && ProducerOk(m)
    && ConsumerOk(m)
    && SlotsOk(m)
    && m.delivered == m.accepted[..|m.delivered|]
  }

  // ----- each step keeps it, and is a step of the bounded queue

  /** The queue before, what was returned, and the queue after.  The amounts that are returned
      were exact at the load of the other end's tail; since then the room, or the number of
      entries, can only have grown. */
  ghost predicate QueueStep<T>(capacity: nat, q: seq<T>, e: Event<T>, r: seq<T>) {
    match e
    case Silent => r == q
    case Enqueued(objs, free) => r == q + objs && objs != [] && |r| + free <= capacity
    case Refused(offered, free) => r == q && |q| + free == capacity && (offered == 0 || offered > free)
    case Dequeued(objs, available) => q == objs + r && objs != [] && available <= |r|
    case NothingToTake(asked, available) => r == q && available == |q| && (asked == 0 || asked > available)
    case ProducerCounted(count) => r == q && count == |q|
    case ConsumerCounted(count) => r == q && count <= |q|
  }

  lemma CreatedInv<T>(g: Geometry, slots: seq<T>)
    requires Sound(g) && |slots| == g.size
    ensures Inv(Created(g, slots)) && Queue(Created(g, slots)) == []
  {
  }

  /** Slots stay as they were, and no more of them count. */
  lemma SlotsStay<T>(m: Machine<T>, n: Machine<T>)
    requires Sound(m.g) && SlotsOk(m)
    requires n.g == m.g && n.slots == m.slots && m.accepted <= n.accepted
    requires |m.delivered| <= |n.delivered| && Filled(n) <= Filled(m)
    ensures SlotsOk(n)
  {
    hide Word;
    forall i: nat | |n.delivered| <= i < Filled(n)
      ensures InPlace(n, i)
    {
      assert InPlace(m, i);
    }
  }

  /** One more slot is written, and none of those that count is lost. */
  lemma SlotsGrow<T>(m: Machine<T>, n: Machine<T>)
    requires Sound(m.g) && SlotsOk(m) && Filled(m) < |m.accepted| <= |m.delivered| + m.g.capacity
    requires n.g == m.g && n.accepted == m.accepted && n.delivered == m.delivered
    requires n.slots == m.slots[Filled(m) % m.g.size := m.accepted[Filled(m)]] && Filled(n) == Filled(m) + 1
    ensures SlotsOk(n)
  {
    hide IsPow2;
    forall i: nat | |m.delivered| <= i < Filled(n)
      ensures InPlace(n, i)
    {
      if i < Filled(m) {
        assert InPlace(m, i);
        SlotsDistinct(i, Filled(m), m.g.size);
      }
    }
  }

  lemma SliceJoin<T>(s: seq<T>, a: nat, b: nat, c: nat)
    requires a <= b <= c <= |s|
    ensures s[a..c] == s[a..b] + s[b..c]
    ensures s[..c] == s[0..c] && s[..b] == s[0..b] && (c == |s| ==> s[b..] == s[b..c])
  {
  }

  /** The producer moves forward; the consumer's side still holds. */
  lemma ConsumerStays<T>(m: Machine<T>, n: Machine<T>)
    requires Counters(m) && ConsumerOk(m) && Counters(n)
    requires n.consumer == m.consumer && n.claimed == m.claimed && n.delivered == m.delivered && n.g == m.g
    requires m.accepted <= n.accepted && m.published <= n.published
    ensures ConsumerOk(n)
  {
    hide Word;
  }

  /** The consumer moves forward; the producer's side still holds. */
  lemma ProducerStays<T>(m: Machine<T>, n: Machine<T>)
    requires Counters(m) && ProducerOk(m) && Counters(n)
    requires n.producer == m.producer && n.accepted == m.accepted && n.published == m.published && n.g == m.g
    requires |m.delivered| <= |n.delivered|
    ensures ProducerOk(n)
  {
    hide Word;
  }

  /** The load of cons.tail: the free space is exact at that moment. */
  lemma ProducerLoads<T>(m: Machine<T>)
    requires Inv(m) && m.producer.PHeadRead?
    ensures FreeEntries(m.g, m.consTail, m.producer.oldHead) == m.g.capacity - |Queue(m)|
    ensures var (n, e) := ProducerNext(m); Inv(n) && QueueStep(m.g.capacity, Queue(m), e, Queue(n))
  {
    hide Word;
    hide SlotsOk;
    hide FreeEntries;
    hide ConsumerOk;
    CapacityFits(m.g);
    hide Sound;
    FreeIsExact(m.g, |m.delivered|, |m.accepted|);
    var (n, _) := ProducerNext(m);
    ConsumerStays(m, n);
    SlotsStay(m, n);
  }

  lemma ProducerStores<T>(m: Machine<T>)
    requires Inv(m) && m.producer.PCopying? && m.producer.copied < |m.producer.objs|
    ensures var (n, e) := ProducerNext(m); Inv(n) && QueueStep(m.g.capacity, Queue(m), e, Queue(n))
  {
    hide Word;
    hide Slot;
    hide SlotsOk;
    hide ConsumerOk;
    SlotAfterWrap(m.published, m.producer.copied, m.g);
    CapacityFits(m.g);
    hide Sound;
    var (n, _) := ProducerNext(m);
    assert m.accepted[m.published + m.producer.copied] == m.producer.objs[m.producer.copied];
    ConsumerStays(m, n);
    SlotsGrow(m, n);
  }

  /** Slot number k of a window whose head is a wrapped counter. */
  lemma SlotAfterWrap(counter: nat, k: nat, g: Geometry)
    requires Sound(g)
    ensures Slot(Word(Word(counter) + k), g) == (counter + k) % g.size < g.size
  {
    hide IsPow2;
    hide Slot;
    WordAdd(counter, k);
    SlotOf(counter + k, g);
  }

  /** The store of prod.head. */
  lemma ProducerClaims<T>(m: Machine<T>)
    requires Inv(m) && m.producer.PGranted?
    ensures var (n, e) := ProducerNext(m); Inv(n) && QueueStep(m.g.capacity, Queue(m), e, Queue(n))
  {
    hide Word;
    WordAdd(|m.accepted|, |m.producer.objs|);
    hide SlotsOk;
    hide ConsumerOk;
    hide Sound;
    var (n, _) := ProducerNext(m);
    assert n.accepted[n.published..] == m.producer.objs;
    assert Counters(n);
    ConsumerStays(m, n);
    SlotsStay(m, n);
  }

  /** The store of prod.tail. */
  lemma ProducerPublishes<T>(m: Machine<T>)
    requires Inv(m) && m.producer.PCopying? && m.producer.copied == |m.producer.objs|
    ensures var (n, e) := ProducerNext(m); Inv(n) && QueueStep(m.g.capacity, Queue(m), e, Queue(n))
  {
    hide Word;
    WordAdd(m.published, |m.producer.objs|);
    hide SlotsOk;
    hide ConsumerOk;
    hide Sound;
    var (n, e) := ProducerNext(m);
    assert Counters(n);
    ConsumerStays(m, n);
    SlotsStay(m, n);
    SliceJoin(m.accepted, |m.delivered|, m.published, n.published);
    assert Queue(n) == Queue(m) + m.producer.objs;
    assert QueueStep(m.g.capacity, Queue(m), e, Queue(n));
  }

  lemma ProducerOther<T>(m: Machine<T>)
    requires Inv(m) && (m.producer.PIdle? || m.producer.PCalled? || m.producer.PCountCalled? || m.producer.PCounting?)
    ensures var (n, e) := ProducerNext(m); Inv(n) && QueueStep(m.g.capacity, Queue(m), e, Queue(n))
  {
    hide Word;
    hide SlotsOk;
    hide ConsumerOk;
    hide CountOf;
    hide Sound;
    if m.producer.PCounting? { CountIsExact(m.g, m.published, |m.delivered|); }
    var (n, e) := ProducerNext(m);
    ConsumerStays(m, n);
    SlotsStay(m, n);
    assert Inv(n) && Queue(n) == Queue(m);
    assert e == if m.producer.PCounting? then ProducerCounted(|Queue(m)|) else Silent;
  }

  lemma ConsumerLoads<T>(m: Machine<T>)
    requires Inv(m) && m.consumer.CHeadRead?
    ensures Entries(m.prodTail, m.consumer.oldHead) == |Queue(m)|
    ensures var (n, e) := ConsumerNext(m); Inv(n) && QueueStep(m.g.capacity, Queue(m), e, Queue(n))
  {
    hide Word;
    hide SlotsOk;
    hide ProducerOk;
    hide Entries;
    CapacityFits(m.g);
    hide Sound;
    EntriesAreExact(m.published, m.claimed);
    var (n, _) := ConsumerNext(m);
    ProducerStays(m, n);
    SlotsStay(m, n);
  }

  lemma ConsumerReads<T>(m: Machine<T>)
    requires Inv(m) && m.consumer.CCopying? && |m.consumer.got| < m.consumer.n
    ensures var (n, e) := ConsumerNext(m); Inv(n) && QueueStep(m.g.capacity, Queue(m), e, Queue(n))
  {
    hide Word;
    hide IsPow2;
    hide Slot;
    var (n, _) := ConsumerNext(m);
    var at := |m.delivered| + |m.consumer.got|;
    SlotAfterWrap(|m.delivered|, |m.consumer.got|, m.g);
    assert InPlace(m, at);
    SlotsStay(m, n);
  }

  /** The store of cons.head. */
  lemma ConsumerClaims<T>(m: Machine<T>)
    requires Inv(m) && m.consumer.CGranted?
    ensures var (n, e) := ConsumerNext(m); Inv(n) && QueueStep(m.g.capacity, Queue(m), e, Queue(n))
  {
    hide Word;
    WordAdd(m.claimed, m.consumer.n);
    hide SlotsOk;
    hide ProducerOk;
    hide Sound;
    var (n, _) := ConsumerNext(m);
    assert Counters(n);
    ProducerStays(m, n);
    SlotsStay(m, n);
  }

  /** The store of cons.tail. */
  lemma ConsumerReleases<T>(m: Machine<T>)
    requires Inv(m) && m.consumer.CCopying? && |m.consumer.got| == m.consumer.n
    ensures var (n, e) := ConsumerNext(m); Inv(n) && QueueStep(m.g.capacity, Queue(m), e, Queue(n))
  {
    hide Word;
    WordAdd(|m.delivered|, m.consumer.n);
    hide SlotsOk;
    hide ProducerOk;
    hide Sound;
    var (n, e) := ConsumerNext(m);
    assert Counters(n);
    ProducerStays(m, n);
    SlotsStay(m, n);
    SliceJoin(m.accepted, 0, |m.delivered|, |n.delivered|);
    SliceJoin(m.accepted, |m.delivered|, |n.delivered|, m.published);
    assert Queue(m) == m.consumer.got + Queue(n);
    assert QueueStep(m.g.capacity, Queue(m), e, Queue(n));
  }

  /** The consumer's ring_count: what it returns is what the length was at its load of
      prod.tail. */
  lemma ConsumerCounts<T>(m: Machine<T>)
    requires Inv(m) && m.consumer.CCounting?
    ensures ConsumerNext(m).1 == ConsumerCounted(m.consumer.exact)
  {
    hide Word;
    CountIsExact(m.g, |m.delivered| + m.consumer.exact, |m.delivered|);
  }

  lemma ConsumerOther<T>(m: Machine<T>)
    requires Inv(m) && (m.consumer.CIdle? || m.consumer.CCalled? || m.consumer.CCountCalled? || m.consumer.CCounting?)
    ensures var (n, e) := ConsumerNext(m); Inv(n) && QueueStep(m.g.capacity, Queue(m), e, Queue(n))
  {
    hide Word;
    hide SlotsOk;
    hide ProducerOk;
    hide CountOf;
    if m.consumer.CCounting? { ConsumerCounts(m); }
    hide Sound;
    var (n, e) := ConsumerNext(m);
    ProducerStays(m, n);
    SlotsStay(m, n);
    assert Inv(n) && Queue(n) == Queue(m);
    assert e == if m.consumer.CCounting? then ConsumerCounted(m.consumer.exact) else Silent;
  }

  lemma CallKeeps<T>(m: Machine<T>, a: Action<T>)
    requires Inv(m) && !a.ProducerStep? && !a.ConsumerStep?
    ensures var (n, e) := Next(m, a); Inv(n) && QueueStep(m.g.capacity, Queue(m), e, Queue(n))
  {
    hide Word;
    hide SlotsOk;
    hide Sound;
    SlotsStay(m, Next(m, a).0);
  }

  function Put<T>(e: Event<T>): seq<T> { if e.Enqueued? then e.objs else [] }

  function Taken<T>(e: Event<T>): seq<T> { if e.Dequeued? then e.objs else [] }

  lemma StepHistory<T>(m: Machine<T>, a: Action<T>)
    requires Inv(m)
    ensures var (n, e) := Next(m, a);
            && n.g == m.g && |n.accepted| >= n.published
            && n.delivered == m.delivered + Taken(e)
            && n.accepted[..n.published] == m.accepted[..m.published] + Put(e)
  {
    hide Word;
    hide SlotsOk;
    hide Sound;
    if a == ProducerStep && m.producer.PCopying? && m.producer.copied == |m.producer.objs| {
      assert m.accepted == m.accepted[..m.published] + m.accepted[m.published..];
    }
  }

  /** One step of either end keeps the invariant and is a step of the bounded queue. */
  lemma StepKeeps<T>(m: Machine<T>, a: Action<T>)
    requires Inv(m)
    ensures var (n, e) := Next(m, a);
            && Inv(n) && n.g == m.g
            && QueueStep(m.g.capacity, Queue(m), e, Queue(n))
            && n.delivered == m.delivered + Taken(e)
            && n.accepted[..n.published] == m.accepted[..m.published] + Put(e)
  {
    StepHistory(m, a);
    hide ProducerNext;
    hide ConsumerNext;
    hide QueueStep;
    match a
    case ProducerStep =>
      if m.producer.PHeadRead? {
        ProducerLoads(m);
      } else if m.producer.PCopying? && m.producer.copied < |m.producer.objs| {
        ProducerStores(m);
      } else if m.producer.PGranted? {
        ProducerClaims(m);
      } else if m.producer.PCopying? {
        ProducerPublishes(m);
      } else {
        ProducerOther(m);
      }
    case ConsumerStep =>
      if m.consumer.CHeadRead? {
        ConsumerLoads(m);
      } else if m.consumer.CCopying? && |m.consumer.got| < m.consumer.n {
        ConsumerReads(m);
      } else if m.consumer.CGranted? {
        ConsumerClaims(m);
      } else if m.consumer.CCopying? {
        ConsumerReleases(m);
      } else {
        ConsumerOther(m);
      }
    case _ => CallKeeps(m, a);
  }

  /** The two ends never touch the same slot: no slot is written while it is being read. */
  lemma NoSlotIsShared<T>(m: Machine<T>)
    requires Inv(m)
    requires m.producer.PCopying? && m.producer.copied < |m.producer.objs|
    requires m.consumer.CCopying? && |m.consumer.got| < m.consumer.n
    ensures Slot(Word(m.producer.oldHead + m.producer.copied), m.g)
         != Slot(Word(m.consumer.oldHead + |m.consumer.got|), m.g)
  {
    hide Slot;
    hide Word;
    hide IsPow2;
    SlotAfterWrap(m.published, m.producer.copied, m.g);
    SlotAfterWrap(|m.delivered|, |m.consumer.got|, m.g);
    SlotsDistinct(|m.delivered| + |m.consumer.got|, m.published + m.producer.copied, m.g.size);
  }

  // ----- whole runs

  /** A schedule of calls and steps, and what is returned along it. */
  ghost function Run<T>(m: Machine<T>, schedule: seq<Action<T>>): (r: (Machine<T>, seq<Event<T>>))
    requires Inv(m)
    ensures Inv(r.0) && r.0.g == m.g
    decreases |schedule|
  {
    if schedule == [] then (m, [])
    else
      StepKeeps(m, schedule[0]);
      var (n, e) := Next(m, schedule[0]);
      var (last, events) := Run(n, schedule[1..]);
      (last, [e] + events)
  }

  /** Everything the enqueues of a run have put in, and the dequeues have taken out. */
  ghost function PutIn<T>(events: seq<Event<T>>): seq<T> {
    if events == [] then [] else Put(events[0]) + PutIn(events[1..])
  }

  ghost function TakenOut<T>(events: seq<Event<T>>): seq<T> {
    if events == [] then [] else Taken(events[0]) + TakenOut(events[1..])
  }

  lemma Bounds<T>(m: Machine<T>)
    requires Inv(m)
    ensures |m.delivered| <= m.published <= |m.accepted|
  {
  }

  lemma {:induction false} RunHistory<T>(m: Machine<T>, schedule: seq<Action<T>>)
    requires Inv(m)
    ensures var (n, events) := Run(m, schedule);
            && n.delivered == m.delivered + TakenOut(events)
            && n.accepted[..n.published] == m.accepted[..m.published] + PutIn(events)
    decreases |schedule|
  {
    hide Inv;
    hide Next;
    hide QueueStep;
    if schedule == [] {
      Bounds(m);
      assert m.delivered + [] == m.delivered;
      assert m.accepted[..m.published] + [] == m.accepted[..m.published];
    } else {
      StepKeeps(m, schedule[0]);
      var (n, e) := Next(m, schedule[0]);
      RunHistory(n, schedule[1..]);
      var (last, events) := Run(n, schedule[1..]);
      assert ([e] + events)[0] == e && ([e] + events)[1..] == events;
      assert m.delivered + Taken(e) + TakenOut(events) == m.delivered + (Taken(e) + TakenOut(events));
    }
  }

  /** First in, first out, under every interleaving: what has come out is a prefix of what has
      gone in, nothing lost, doubled or overwritten, and the rest is in the ring. */
  lemma Fifo<T>(g: Geometry, slots: seq<T>, schedule: seq<Action<T>>)
    requires Sound(g) && |slots| == g.size
    ensures Inv(Created(g, slots))
    ensures var (m, events) := Run(Created(g, slots), schedule);
            && PutIn(events) == TakenOut(events) + Queue(m)
            && |Queue(m)| <= g.capacity
  {
    hide ProducerOk;
    hide ConsumerOk;
    hide SlotsOk;
    hide Word;
    hide Run;
    CreatedInv(g, slots);
    var start := Created(g, slots);
    RunHistory(start, schedule);
    var (m, events) := Run(start, schedule);
    assert m.delivered == TakenOut(events);
    assert m.accepted[..m.published] == PutIn(events);
    assert m.accepted[..m.published] == m.accepted[..|m.delivered|] + Queue(m);
  }
}
