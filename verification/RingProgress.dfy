/** Every call on the ring ends: after how many steps of its own end, whatever the other end does in
    between, and with which answer. */
module RingProgress {
  import opened Bits
  import opened RingGeometry
  import opened RingIndex
  import opened RingMachine

  // ----- one step

  /** How many steps the call that is under way still takes at most. */
  function ProducerLeft<T>(p: Producer<T>): nat {
    match p
    case PIdle => 0
    case PCalled(objs, _) => |objs| + 4
    case PHeadRead(objs, _, _) => |objs| + 3
    case PGranted(objs, _, _) => |objs| + 2
    case PCopying(objs, _, _, k) => if k <= |objs| then |objs| - k + 1 else 0
    case PCountCalled => 2
    case PCounting(_) => 1
  }

  function ConsumerLeft<T>(c: Consumer<T>): nat {
    match c
    case CIdle => 0
    case CCalled(n, _) => n + 4
    case CHeadRead(n, _, _) => n + 3
    case CGranted(n, _, _) => n + 2
    case CCopying(n, _, _, got) => if |got| <= n then n - |got| + 1 else 0
    case CCountCalled => 2
    case CCounting(_, _) => 1
  }

  /** A step of the producer brings the end of its call nearer, and the step that returns an answer
      is the last. */
  lemma ProducerFalls<T>(m: Machine<T>)
    requires Inv(m) && m.producer != PIdle
    ensures var (n, e) := ProducerNext(m);
            && ProducerLeft(n.producer) < ProducerLeft(m.producer)
            && (e == Silent <==> n.producer != PIdle)
            && n.consumer == m.consumer
  {
    hide Word;
    hide SlotsOk;
    hide ConsumerOk;
    hide FreeEntries;
  }

  lemma ConsumerFalls<T>(m: Machine<T>)
    requires Inv(m) && m.consumer != CIdle
    ensures var (n, e) := ConsumerNext(m);
            && ConsumerLeft(n.consumer) < ConsumerLeft(m.consumer)
            && (e == Silent <==> n.consumer != CIdle)
            && n.producer == m.producer
  {
    hide Word;
    hide SlotsOk;
    hide ProducerOk;
    hide Entries;
  }

  predicate ToProducer<T>(e: Event<T>) { e.Enqueued? || e.Refused? || e.ProducerCounted? }

  predicate ToConsumer<T>(e: Event<T>) { e.Dequeued? || e.NothingToTake? || e.ConsumerCounted? }

  /** No other action touches a call of the producer. */
  lemma ProducerWaits<T>(m: Machine<T>, a: Action<T>)
    requires Inv(m) && m.producer != PIdle && a != ProducerStep
    ensures Next(m, a).0.producer == m.producer && !ToProducer(Next(m, a).1)
  {
  }

  lemma ConsumerWaits<T>(m: Machine<T>, a: Action<T>)
    requires Inv(m) && m.consumer != CIdle && a != ConsumerStep
    ensures Next(m, a).0.consumer == m.consumer && !ToConsumer(Next(m, a).1)
  {
  }

  // ----- runs

  function Times<T(==)>(schedule: seq<Action<T>>, a: Action<T>): (k: nat)
    ensures k <= |schedule|
  {
    if schedule == [] then 0 else (if schedule[0] == a then 1 else 0) + Times(schedule[1..], a)
  }

  /** The state after the first `k` actions. */
  ghost function After<T>(m: Machine<T>, schedule: seq<Action<T>>, k: nat): (n: Machine<T>)
    requires Inv(m) && k <= |schedule|
    ensures Inv(n) && n.g == m.g
  {
    Run(m, schedule[..k]).0
  }

  /** What action number `k` returns. */
  ghost function Returned<T>(m: Machine<T>, schedule: seq<Action<T>>, k: nat): Event<T>
    requires Inv(m) && k < |schedule|
  {
    Next(After(m, schedule, k), schedule[k]).1
  }

  lemma AfterFirst<T>(m: Machine<T>, schedule: seq<Action<T>>, k: nat)
    requires Inv(m) && schedule != [] && k < |schedule|
    ensures var n := Next(m, schedule[0]).0;
            && Inv(n) && n.g == m.g
            && After(m, schedule, k + 1) == After(n, schedule[1..], k)
            && (k + 1 < |schedule| ==> Returned(m, schedule, k + 1) == Returned(n, schedule[1..], k))
    ensures After(m, schedule, 0) == m && Returned(m, schedule, 0) == Next(m, schedule[0]).1
  {
    hide Inv;
    hide Next;
    StepKeeps(m, schedule[0]);
    assert schedule[..k + 1][0] == schedule[0] && schedule[..k + 1][1..] == schedule[1..][..k];
  }

  // ----- enqueue

  predicate Enqueueing<T>(p: Producer<T>) {
    p.PCalled? || p.PHeadRead? || p.PGranted? || p.PCopying?
  }

  /** What an enqueue of `objs` answers when its load of cons.tail finds `free` entries free. */
  function EnqueueAnswer<T>(objs: seq<T>, behavior: Behavior, free: nat): (e: Event<T>)
    ensures behavior == Fixed ==> e == if 0 < |objs| <= free then Enqueued(objs, free - |objs|) else Refused(|objs|, free)
    ensures e.Enqueued? ==> e.objs <= objs && (e.objs == objs || (behavior == Variable && e.freeSpace == 0))
    ensures e.Refused? <==> objs == [] || (if behavior == Fixed then free < |objs| else free == 0)
  {
    var n := Granted(|objs|, free, behavior);
    assert objs[..|objs|] == objs;
    if n == 0 then Refused(|objs|, free) else Enqueued(objs[..n], free - n)
  }

  /** The enqueue under way ends with action `i`, and with no earlier one; its answer is that of the
      free space at the load. */
  ghost predicate EnqueueEndsAt<T>(m: Machine<T>, schedule: seq<Action<T>>, i: nat, load: nat)
    requires Inv(m) && Enqueueing(m.producer)
  {
    && load <= i < |schedule| && schedule[i] == ProducerStep
    && Times(schedule[..i + 1], ProducerStep) <= ProducerLeft(m.producer)
    && (forall k: nat :: k < i ==> !ToProducer(Returned(m, schedule, k)))
    && After(m, schedule, i + 1).producer == PIdle
    && match m.producer
       case PCalled(objs, behavior) => LoadAnswers(m, schedule, i, load, objs, behavior)
       case PHeadRead(objs, behavior, _) => LoadAnswers(m, schedule, i, load, objs, behavior)
       case PGranted(objs, _, free) => |objs| <= free && Returned(m, schedule, i) == Enqueued(objs, free - |objs|)
       case PCopying(objs, _, free, _) => |objs| <= free && Returned(m, schedule, i) == Enqueued(objs, free - |objs|)
  }

  ghost predicate LoadAnswers<T>(m: Machine<T>, schedule: seq<Action<T>>, i: nat, load: nat,
                                 objs: seq<T>, behavior: Behavior)
    requires Inv(m) && load <= i < |schedule|
  {
    var at := After(m, schedule, load);
    && at.producer.PHeadRead? && schedule[load] == ProducerStep
    && |Queue(at)| <= m.g.capacity
    && Returned(m, schedule, i) == EnqueueAnswer(objs, behavior, m.g.capacity - |Queue(at)|)
  }

  lemma TimesFirst<T>(schedule: seq<Action<T>>, i: nat, a: Action<T>)
    requires schedule != [] && i < |schedule|
    ensures Times(schedule[..i + 1], a) == (if schedule[0] == a then 1 else 0) + Times(schedule[1..][..i], a)
  {
    assert schedule[..i + 1][1..] == schedule[1..][..i];
  }

  /** One action later. */
  lemma LoadAnswersLater<T>(m: Machine<T>, schedule: seq<Action<T>>, i: nat, load: nat, objs: seq<T>, behavior: Behavior)
    requires Inv(m) && schedule != [] && i + 1 < |schedule| && load <= i
    requires Inv(Next(m, schedule[0]).0) && Next(m, schedule[0]).0.g == m.g
    requires LoadAnswers(Next(m, schedule[0]).0, schedule[1..], i, load, objs, behavior)
    ensures LoadAnswers(m, schedule, i + 1, load + 1, objs, behavior)
  {
    hide Inv;
    hide Next;
    hide After;
    hide Returned;
    hide Queue;
    AfterFirst(m, schedule, i);
    AfterFirst(m, schedule, load);
  }

  /** A step of the producer that does not end the call. */
  lemma EnqueueStep<T>(m: Machine<T>)
    requires Inv(m) && Enqueueing(m.producer) && ProducerNext(m).1 == Silent
    ensures |Queue(m)| <= m.g.capacity
    ensures var p := ProducerNext(m).0.producer;
            match m.producer
            case PCalled(objs, behavior) => p.PHeadRead? && p.objs == objs && p.behavior == behavior
            case PHeadRead(objs, behavior, _) =>
              var free := m.g.capacity - |Queue(m)|;
              && p.PGranted? && p.freeEntries == free && p.objs == objs[..Granted(|objs|, free, behavior)]
              && EnqueueAnswer(objs, behavior, free) == Enqueued(p.objs, free - |p.objs|)
            case PGranted(objs, _, free) => p.PCopying? && p.objs == objs && p.freeEntries == free
            case PCopying(objs, _, free, _) => p.PCopying? && p.objs == objs && p.freeEntries == free
  {
    hide Word;
    hide SlotsOk;
    hide ConsumerOk;
    hide FreeEntries;
    if m.producer.PHeadRead? { ProducerLoads(m); }
  }

  /** The last step of an enqueue. */
  lemma EnqueueLast<T>(m: Machine<T>)
    requires Inv(m) && Enqueueing(m.producer) && ProducerNext(m).1 != Silent
    ensures |Queue(m)| <= m.g.capacity && ProducerNext(m).0.producer == PIdle
    ensures match m.producer
            case PCalled(_, _) => false
            case PHeadRead(objs, behavior, _) =>
              ProducerNext(m).1 == EnqueueAnswer(objs, behavior, m.g.capacity - |Queue(m)|)
            case PGranted(_, _, _) => false
            case PCopying(objs, _, free, _) => |objs| <= free && ProducerNext(m).1 == Enqueued(objs, free - |objs|)
  {
    hide Word;
    hide SlotsOk;
    hide ConsumerOk;
    hide FreeEntries;
    if m.producer.PHeadRead? { ProducerLoads(m); }
  }

  lemma EnqueueEndsNow<T>(m: Machine<T>, schedule: seq<Action<T>>)
    requires Inv(m) && Enqueueing(m.producer)
    requires schedule != [] && schedule[0] == ProducerStep && ProducerNext(m).1 != Silent
    ensures EnqueueEndsAt(m, schedule, 0, 0)
  {
    hide Run;
    hide ProducerNext;
    AfterFirst(m, schedule, 0);
    EnqueueLast(m);
    TimesFirst(schedule, 0, ProducerStep);
    assert After(m, schedule, 1) == After(Next(m, schedule[0]).0, schedule[1..], 0);
    AfterNothing(Next(m, schedule[0]).0, schedule[1..]);
  }

  lemma AfterNothing<T>(m: Machine<T>, schedule: seq<Action<T>>)
    requires Inv(m)
    ensures After(m, schedule, 0) == m
  {
  }

  lemma EnqueueEndsLater<T>(m: Machine<T>, schedule: seq<Action<T>>, i: nat, load: nat) returns (first: nat)
    requires Inv(m) && Enqueueing(m.producer) && schedule != []
    requires schedule[0] == ProducerStep ==> ProducerNext(m).1 == Silent
    requires var n := Next(m, schedule[0]).0;
             Inv(n) && Enqueueing(n.producer) && EnqueueEndsAt(n, schedule[1..], i, load)
    ensures EnqueueEndsAt(m, schedule, i + 1, first)
  {
    hide Inv;
    hide After;
    hide Returned;
    hide Queue;
    hide ProducerNext;
    hide ConsumerNext;
    var a := schedule[0];
    var (n, e) := Next(m, a);
    StepKeeps(m, a);
    AfterFirst(m, schedule, i);
    first := load + 1;
    if a == ProducerStep {
      ProducerFalls(m);
      EnqueueStep(m);
      if m.producer.PHeadRead? {
        first := 0;
      } else if m.producer.PCalled? {
        LoadAnswersLater(m, schedule, i, load, m.producer.objs, m.producer.behavior);
      }
    } else {
      ProducerWaits(m, a);
      if m.producer.PCalled? || m.producer.PHeadRead? {
        LoadAnswersLater(m, schedule, i, load, m.producer.objs, m.producer.behavior);
      }
    }
    TimesFirst(schedule, i + 1, ProducerStep);
    forall k: nat | k < i + 1
      ensures !ToProducer(Returned(m, schedule, k))
    {
      if k == 0 { AfterFirst(m, schedule, 0); } else { AfterFirst(m, schedule, k - 1); }
    }
    AfterFirst(m, schedule, i + 1);
  }

  /** An enqueue ends within so many steps of the producer, in any interleaving. */
  lemma {:induction false} EnqueueEnds<T>(m: Machine<T>, schedule: seq<Action<T>>) returns (i: nat, load: nat)
    requires Inv(m) && Enqueueing(m.producer)
    requires Times(schedule, ProducerStep) >= ProducerLeft(m.producer)
    ensures EnqueueEndsAt(m, schedule, i, load)
    decreases |schedule|
  {
    hide ProducerNext;
    hide ConsumerNext;
    hide Run;
    hide Inv;
    Busy(m);
    assert schedule != [];
    var a, rest := schedule[0], schedule[1..];
    var (n, e) := Next(m, a);
    StepKeeps(m, a);
    if a == ProducerStep && e != Silent {
      EnqueueEndsNow(m, schedule);
      i, load := 0, 0;
    } else {
      if a == ProducerStep {
        ProducerFalls(m);
        EnqueueStep(m);
      } else {
        ProducerWaits(m, a);
      }
      i, load := EnqueueEnds(n, rest);
      load := EnqueueEndsLater(m, schedule, i, load);
      i := i + 1;
    }
  }

  lemma Busy<T>(m: Machine<T>)
    requires Inv(m) && Enqueueing(m.producer)
    ensures ProducerLeft(m.producer) > 0
  {
  }

  /** A call of enqueue returns within |objs| + 4 steps of the producer, whatever else is done in
      between.  It answers for the free space at its load of cons.tail: a fixed number of objects is
      taken whole or not at all, a variable one as far as there is room. */
  lemma EnqueueReturns<T>(m: Machine<T>, objs: seq<T>, behavior: Behavior, schedule: seq<Action<T>>)
    returns (i: nat, load: nat)
    requires Inv(m) && m.producer == PIdle && |objs| < U32
    requires Times(schedule, ProducerStep) >= |objs| + 4
    ensures var n := Next(m, CallEnqueue(objs, behavior)).0;
            && Inv(n) && n.g == m.g && load <= i < |schedule| && schedule[i] == ProducerStep
            && Times(schedule[..i + 1], ProducerStep) <= |objs| + 4
            && (forall k: nat :: k < i ==> !ToProducer(Returned(n, schedule, k)))
            && After(n, schedule, i + 1).producer == PIdle
            && LoadAnswers(n, schedule, i, load, objs, behavior)
  {
    hide Run;
    hide Inv;
    StepKeeps(m, CallEnqueue(objs, behavior));
    i, load := EnqueueEnds(Next(m, CallEnqueue(objs, behavior)).0, schedule);
  }

  // ----- dequeue

  predicate Dequeueing<T>(c: Consumer<T>) {
    c.CCalled? || c.CHeadRead? || c.CGranted? || c.CCopying?
  }

  /** What a dequeue of `asked` objects answers when its load of prod.tail finds the queue `q`. */
  function DequeueAnswer<T>(asked: nat, behavior: Behavior, q: seq<T>): (e: Event<T>)
    ensures behavior == Fixed ==> e == if 0 < asked <= |q| then Dequeued(q[..asked], |q| - asked) else NothingToTake(asked, |q|)
    ensures e.Dequeued? ==> e.objs <= q && (|e.objs| == asked || (behavior == Variable && e.available == 0))
    ensures e.NothingToTake? <==> asked == 0 || (if behavior == Fixed then |q| < asked else q == [])
  {
    var n := Granted(asked, |q|, behavior);
    if n == 0 then NothingToTake(asked, |q|) else Dequeued(q[..n], |q| - n)
  }

  /** The dequeue under way ends with action `i`, and with no earlier one; its answer is that of the
      queue at the load. */
  ghost predicate DequeueEndsAt<T>(m: Machine<T>, schedule: seq<Action<T>>, i: nat, load: nat)
    requires Inv(m) && Dequeueing(m.consumer)
  {
    && load <= i < |schedule| && schedule[i] == ConsumerStep
    && Times(schedule[..i + 1], ConsumerStep) <= ConsumerLeft(m.consumer)
    && (forall k: nat :: k < i ==> !ToConsumer(Returned(m, schedule, k)))
    && After(m, schedule, i + 1).consumer == CIdle
    && match m.consumer
       case CCalled(asked, behavior) => LoadGives(m, schedule, i, load, asked, behavior)
       case CHeadRead(asked, behavior, _) => LoadGives(m, schedule, i, load, asked, behavior)
       case CGranted(n, _, entries) => Gives(m, Returned(m, schedule, i), n, entries)
       case CCopying(n, _, entries, _) => Gives(m, Returned(m, schedule, i), n, entries)
  }

  /** The first `n` objects of the queue are returned. */
  ghost predicate Gives<T>(m: Machine<T>, e: Event<T>, n: nat, entries: nat)
    requires Inv(m)
  {
    n <= entries && n <= |Queue(m)| && e == Dequeued(Queue(m)[..n], entries - n)
  }

  ghost predicate LoadGives<T>(m: Machine<T>, schedule: seq<Action<T>>, i: nat, load: nat, asked: nat, behavior: Behavior)
    requires Inv(m) && load <= i < |schedule|
  {
    var at := After(m, schedule, load);
    && at.consumer.CHeadRead? && schedule[load] == ConsumerStep
    && Returned(m, schedule, i) == DequeueAnswer(asked, behavior, Queue(at))
  }

  lemma LoadGivesLater<T>(m: Machine<T>, schedule: seq<Action<T>>, i: nat, load: nat, asked: nat, behavior: Behavior)
    requires Inv(m) && schedule != [] && i + 1 < |schedule| && load <= i
    requires Inv(Next(m, schedule[0]).0) && LoadGives(Next(m, schedule[0]).0, schedule[1..], i, load, asked, behavior)
    ensures LoadGives(m, schedule, i + 1, load + 1, asked, behavior)
  {
    hide Inv;
    hide Next;
    hide After;
    hide Returned;
    hide Queue;
    AfterFirst(m, schedule, i);
    AfterFirst(m, schedule, load);
  }

  /** What has been published stays in the queue while nothing is taken. */
  lemma QueueGrows<T>(m: Machine<T>, a: Action<T>)
    requires Inv(m) && !Next(m, a).1.Dequeued?
    ensures Inv(Next(m, a).0) && Queue(m) <= Queue(Next(m, a).0)
  {
    hide Inv;
    hide Next;
    hide Queue;
    StepKeeps(m, a);
  }

  lemma PromisedIsThere<T>(m: Machine<T>)
    requires Inv(m) && (m.consumer.CGranted? || m.consumer.CCopying?)
    ensures m.consumer.n <= m.consumer.entries <= |Queue(m)|
  {
  }

  /** The front of the queue stays. */
  lemma FrontStays<T>(m: Machine<T>, a: Action<T>, k: nat)
    requires Inv(m) && !Next(m, a).1.Dequeued? && k <= |Queue(m)|
    ensures Inv(Next(m, a).0) && k <= |Queue(Next(m, a).0)| && Queue(m)[..k] == Queue(Next(m, a).0)[..k]
  {
    hide Inv;
    hide Next;
    QueueGrows(m, a);
  }

  lemma DequeueStep<T>(m: Machine<T>)
    requires Inv(m) && Dequeueing(m.consumer) && ConsumerNext(m).1 == Silent
    ensures var c := ConsumerNext(m).0.consumer;
            match m.consumer
            case CCalled(asked, behavior) => c.CHeadRead? && c.n == asked && c.behavior == behavior
            case CHeadRead(asked, behavior, _) =>
              && c.CGranted? && c.entries == |Queue(m)| && c.n == Granted(asked, |Queue(m)|, behavior)
              && DequeueAnswer(asked, behavior, Queue(m)) == Dequeued(Queue(m)[..c.n], c.entries - c.n)
            case CGranted(n, _, entries) => c.CCopying? && c.n == n && c.entries == entries
            case CCopying(n, _, entries, _) => c.CCopying? && c.n == n && c.entries == entries
  {
    hide Word;
    hide SlotsOk;
    hide ProducerOk;
    hide Entries;
    if m.consumer.CHeadRead? { ConsumerLoads(m); }
  }

  lemma DequeueLast<T>(m: Machine<T>)
    requires Inv(m) && Dequeueing(m.consumer) && ConsumerNext(m).1 != Silent
    ensures ConsumerNext(m).0.consumer == CIdle
    ensures match m.consumer
            case CCalled(_, _) => false
            case CHeadRead(asked, behavior, _) => ConsumerNext(m).1 == DequeueAnswer(asked, behavior, Queue(m))
            case CGranted(_, _, _) => false
            case CCopying(n, _, entries, got) => Gives(m, ConsumerNext(m).1, n, entries)
  {
    hide Word;
    hide SlotsOk;
    hide ProducerOk;
    hide Entries;
    if m.consumer.CHeadRead? { ConsumerLoads(m); }
    if m.consumer.CCopying? { assert Queue(m)[..m.consumer.n] == m.consumer.got; }
  }

  lemma DequeueEndsNow<T>(m: Machine<T>, schedule: seq<Action<T>>)
    requires Inv(m) && Dequeueing(m.consumer)
    requires schedule != [] && schedule[0] == ConsumerStep && ConsumerNext(m).1 != Silent
    ensures DequeueEndsAt(m, schedule, 0, 0)
  {
    hide Run;
    hide ConsumerNext;
    AfterFirst(m, schedule, 0);
    DequeueLast(m);
    TimesFirst(schedule, 0, ConsumerStep);
    AfterNothing(Next(m, schedule[0]).0, schedule[1..]);
  }

  lemma DequeueEndsLater<T>(m: Machine<T>, schedule: seq<Action<T>>, i: nat, load: nat) returns (first: nat)
    requires Inv(m) && Dequeueing(m.consumer) && schedule != []
    requires schedule[0] == ConsumerStep ==> ConsumerNext(m).1 == Silent
    requires var n := Next(m, schedule[0]).0;
             Inv(n) && Dequeueing(n.consumer) && DequeueEndsAt(n, schedule[1..], i, load)
    ensures DequeueEndsAt(m, schedule, i + 1, first)
  {
    hide Inv;
    hide After;
    hide Returned;
    hide Queue;
    hide ProducerNext;
    hide ConsumerNext;
    var a := schedule[0];
    var (n, e) := Next(m, a);
    AfterFirst(m, schedule, i);
    first := load + 1;
    if a == ConsumerStep {
      ConsumerFalls(m);
      DequeueStep(m);
      if m.consumer.CHeadRead? { first := 0; }
    } else {
      ConsumerWaits(m, a);
    }
    if m.consumer.CCalled? || (m.consumer.CHeadRead? && first != 0) {
      LoadGivesLater(m, schedule, i, load, m.consumer.n, m.consumer.behavior);
    }
    if m.consumer.CGranted? || m.consumer.CCopying? {
      PromisedIsThere(m);
      FrontStays(m, a, m.consumer.n);
    } else if first == 0 {
      FrontStays(m, a, n.consumer.n);
    }
    TimesFirst(schedule, i + 1, ConsumerStep);
    forall k: nat | k < i + 1
      ensures !ToConsumer(Returned(m, schedule, k))
    {
      if k == 0 { AfterFirst(m, schedule, 0); } else { AfterFirst(m, schedule, k - 1); }
    }
    AfterFirst(m, schedule, i + 1);
  }

  /** A dequeue ends within so many steps of the consumer, in any interleaving. */
  lemma {:induction false} DequeueEnds<T>(m: Machine<T>, schedule: seq<Action<T>>) returns (i: nat, load: nat)
    requires Inv(m) && Dequeueing(m.consumer)
    requires Times(schedule, ConsumerStep) >= ConsumerLeft(m.consumer)
    ensures DequeueEndsAt(m, schedule, i, load)
    decreases |schedule|
  {
    hide ProducerNext;
    hide ConsumerNext;
    hide Run;
    hide Inv;
    Hungry(m);
    assert schedule != [];
    var a, rest := schedule[0], schedule[1..];
    var (n, e) := Next(m, a);
    StepKeeps(m, a);
    if a == ConsumerStep && e != Silent {
      DequeueEndsNow(m, schedule);
      i, load := 0, 0;
    } else {
      if a == ConsumerStep {
        ConsumerFalls(m);
        DequeueStep(m);
      } else {
        ConsumerWaits(m, a);
      }
      i, load := DequeueEnds(n, rest);
      load := DequeueEndsLater(m, schedule, i, load);
      i := i + 1;
    }
  }

  lemma Hungry<T>(m: Machine<T>)
    requires Inv(m) && Dequeueing(m.consumer)
    ensures ConsumerLeft(m.consumer) > 0
  {
  }

  /** A call of dequeue returns within n + 4 steps of the consumer, whatever else is done in
      between.  It answers for the queue at its load of prod.tail, with the objects at its front. */
  lemma DequeueReturns<T>(m: Machine<T>, asked: nat, behavior: Behavior, schedule: seq<Action<T>>)
    returns (i: nat, load: nat)
    requires Inv(m) && m.consumer == CIdle && asked < U32
    requires Times(schedule, ConsumerStep) >= asked + 4
    ensures var n := Next(m, CallDequeue(asked, behavior)).0;
            && Inv(n) && load <= i < |schedule| && schedule[i] == ConsumerStep
            && Times(schedule[..i + 1], ConsumerStep) <= asked + 4
            && (forall k: nat :: k < i ==> !ToConsumer(Returned(n, schedule, k)))
            && After(n, schedule, i + 1).consumer == CIdle
            && LoadGives(n, schedule, i, load, asked, behavior)
  {
    hide Run;
    hide Inv;
    StepKeeps(m, CallDequeue(asked, behavior));
    i, load := DequeueEnds(Next(m, CallDequeue(asked, behavior)).0, schedule);
  }
}
