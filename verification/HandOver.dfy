/** logcollector.c: packet buffers on their way from the receiver through the masters to the
    workers.  Every ring is a RingMachine, so the steps here are single loads and stores of
    ring_enqueue and ring_dequeue, and any thread may run between any two of them.

    Hypotheses, built into the shape of the system: one receiver; every plugin has dedicated
    cores; no two workers share a core.  Then each ring has one producer and one consumer. */
module HandOver {
  import opened RingIndex
  import R = RingMachine

  /** A struct lbuf, named by the number of its allocation. */
  type Buffer = nat

  /** client_addr.sin_addr.s_addr. */
  type Address = nat

  datatype Thread = Receiver | Master(index: nat) | Worker(core: nat)

  /** receiver_rings[i], and ring_rxs[core][master] of a plugin. */
  datatype RingId = ToMaster(master: nat) | ToWorker(plugin: nat, core: nat, master: nat)

  function ProducerOf(r: RingId): Thread {
    match r
    case ToMaster(_) => Receiver
    case ToWorker(_, _, m) => Master(m)
  }

  function ConsumerOf(r: RingId): Thread {
    match r
    case ToMaster(m) => Master(m)
    case ToWorker(_, c, _) => Worker(c)
  }

  /** What a thread is doing with buffers: `pkt`, and a ring operation that is under way. */
  datatype Local =
    | Idle
    | Holding(b: Buffer)
    | Sending(b: Buffer, to: RingId)
    | Taking(from: RingId)

  /** Where a buffer is.  A buffer that is being sent is still in the sender's hand. */
  datatype Place = Hand(t: Thread) | InRing(r: RingId) | Freed(who: Thread) | SetAside

  /** The rings, the threads and their totals tot_pkt_cnt and tot_free_pkt_cnt, and the history:
      where each buffer is, and the calls of free in their order. */
  datatype System = System(
    rings: map<RingId, R.Machine<Buffer>>, threads: map<Thread, Local>,
    totPkt: map<Thread, nat>, totFree: map<Thread, nat>,
    address: seq<Address>, place: seq<Place>, freed: seq<Buffer>)

  // ----- one object through one ring

  ghost function Queued(m: R.Machine<Buffer>): seq<Buffer>
    requires R.Inv(m)
  {
    R.Queue(m)
  }

  predicate IsSending(p: R.Producer<Buffer>, b: Buffer) {
    match p
    case PCalled(objs, behavior) => objs == [b] && behavior == Fixed
    case PHeadRead(objs, behavior, _) => objs == [b] && behavior == Fixed
    case PGranted(objs, _, _) => objs == [b]
    case PCopying(objs, _, _, _) => objs == [b]
    case _ => false
  }

  predicate IsTaking(c: R.Consumer<Buffer>) {
    match c
    case CCalled(n, behavior) => n == 1 && behavior == Fixed
    case CHeadRead(n, behavior, _) => n == 1 && behavior == Fixed
    case CGranted(n, _, _) => n == 1
    case CCopying(n, _, _, _) => n == 1
    case _ => false
  }

  /** ring_enqueue of one object, from the ring theorem: it ends with the object at the end of
      the queue, or with a queue that is full and as it was. */
  lemma SendOne(m: R.Machine<Buffer>, b: Buffer)
    requires R.Inv(m) && IsSending(m.producer, b)
    ensures var (n, e) := R.Next(m, R.ProducerStep);
            && R.Inv(n) && n.consumer == m.consumer && n.g == m.g
            && match e
               case Silent => IsSending(n.producer, b) && Queued(n) == Queued(m)
               case Enqueued(objs, _) => objs == [b] && n.producer == R.PIdle && Queued(n) == Queued(m) + [b]
               case Refused(_, _) => n.producer == R.PIdle && Queued(n) == Queued(m) && |Queued(m)| == m.g.capacity
               case _ => false
  {
    hide R.Inv;
    R.StepKeeps(m, R.ProducerStep);
  }

  lemma CallSend(m: R.Machine<Buffer>, b: Buffer)
    requires R.Inv(m) && m.producer == R.PIdle
    ensures var n := R.Next(m, R.CallEnqueue([b], Fixed)).0;
            R.Inv(n) && n.consumer == m.consumer && IsSending(n.producer, b) && Queued(n) == Queued(m)
  {
    hide R.Inv;
    R.StepKeeps(m, R.CallEnqueue([b], Fixed));
  }

  lemma CallTake(m: R.Machine<Buffer>)
    requires R.Inv(m) && m.consumer == R.CIdle
    ensures var n := R.Next(m, R.CallDequeue(1, Fixed)).0;
            R.Inv(n) && n.producer == m.producer && IsTaking(n.consumer) && Queued(n) == Queued(m)
  {
    hide R.Inv;
    R.StepKeeps(m, R.CallDequeue(1, Fixed));
  }

  lemma TakeOne(m: R.Machine<Buffer>)
    requires R.Inv(m) && IsTaking(m.consumer)
    ensures var (n, e) := R.Next(m, R.ConsumerStep);
            && R.Inv(n) && n.producer == m.producer && n.g == m.g
            && match e
               case Silent => IsTaking(n.consumer) && Queued(n) == Queued(m)
               case Dequeued(objs, _) => |objs| == 1 && n.consumer == R.CIdle && Queued(m) == objs + Queued(n)
               case NothingToTake(_, _) => n.consumer == R.CIdle && Queued(n) == Queued(m) == []
               case _ => false
  {
    R.StepKeeps(m, R.ConsumerStep);
  }

  // ----- the moves of a buffer

  function Do(s: System, t: Thread, l: Local): System {
    s.(threads := s.threads[t := l])
  }

  function Put(s: System, r: RingId, m: R.Machine<Buffer>): System {
    s.(rings := s.rings[r := m])
  }

  /** ring_enqueue is called. */
  function BeginSend(s: System, t: Thread, r: RingId): System
    requires Inv(s) && t in s.threads && s.threads[t].Holding?
    requires r in s.rings && ProducerOf(r) == t
  {
    var b := s.threads[t].b;
    assert RingOk(s, r);
    Put(Do(s, t, Sending(b, r)), r, R.Next(s.rings[r], R.CallEnqueue([b], Fixed)).0)
  }

  /** ring_dequeue is called. */
  function BeginTake(s: System, t: Thread, r: RingId): System
    requires Inv(s) && t in s.threads && s.threads[t] == Idle
    requires r in s.rings && ConsumerOf(r) == t
  {
    assert RingOk(s, r);
    Put(Do(s, t, Taking(r)), r, R.Next(s.rings[r], R.CallDequeue(1, Fixed)).0)
  }

  /** free(pkt). */
  function Free(s: System, t: Thread): System
    requires Inv(s) && t in s.threads && s.threads[t].Holding?
  {
    var b := s.threads[t].b;
    assert ThreadOk(s, t);
    Do(s, t, Idle).(place := s.place[b := Freed(t)], freed := s.freed + [b])
  }

  /** The pointer is overwritten without a free. */
  function Abandon(s: System, t: Thread): System
    requires Inv(s) && t in s.threads && s.threads[t].Holding?
  {
    var b := s.threads[t].b;
    assert ThreadOk(s, t);
    Do(s, t, Idle).(place := s.place[b := SetAside])
  }

  /** calloc. */
  function Allocate(s: System, t: Thread): System
    requires Inv(s) && t in s.threads && s.threads[t] == Idle
  {
    Do(s, t, Holding(|s.place|)).(place := s.place + [Hand(t)], address := s.address + [0])
  }

  /** One load or store of ring_enqueue; a buffer that the ring refuses stays in the hand. */
  function SendStep(s: System, t: Thread): (r: (System, bool))
    requires Inv(s) && t in s.threads && s.threads[t].Sending?
  {
    var Sending(b, r) := s.threads[t];
    assert ThreadOk(s, t);
    assert RingOk(s, r);
    var (m, e) := R.Next(s.rings[r], R.ProducerStep);
    var n := Put(s, r, m);
    match e
    case Enqueued(_, _) => (Do(n, t, Idle).(place := s.place[b := InRing(r)]), true)
    case Refused(_, _) => (Do(n, t, Holding(b)), true)
    case _ => (n, false)
  }

  /** One load or store of ring_dequeue. */
  function TakeStep(s: System, t: Thread): (r: (System, bool))
    requires Inv(s) && t in s.threads && s.threads[t].Taking?
  {
    var r := s.threads[t].from;
    assert ThreadOk(s, t);
    assert RingOk(s, r);
    TakenFrom(s, r);
    var (m, e) := R.Next(s.rings[r], R.ConsumerStep);
    var n := Put(s, r, m);
    match e
    case Dequeued(objs, _) =>
      (Do(n, t, Holding(objs[0])).(place := s.place[objs[0] := Hand(t)]), true)
    case NothingToTake(_, _) => (Do(n, t, Idle), true)
    case _ => (n, false)
  }

  lemma TakenFrom(s: System, r: RingId)
    requires Inv(s) && r in s.rings && IsTaking(s.rings[r].consumer)
    ensures RingOk(s, r)
    ensures var (n, e) := R.Next(s.rings[r], R.ConsumerStep);
            e.Dequeued? ==> |e.objs| == 1 && e.objs[0] < |s.place| && s.place[e.objs[0]] == InRing(r)
  {
    hide Queued;
    hide R.Inv;
    assert RingOk(s, r);
    TakeOne(s.rings[r]);
    var (n, e) := R.Next(s.rings[r], R.ConsumerStep);
    if e.Dequeued? { assert e.objs[0] in Queued(s.rings[r]); }
  }

  // ----- the invariant

  ghost predicate NoDuplicates(q: seq<Buffer>) {
    forall i, j :: 0 <= i < j < |q| ==> q[i] != q[j]
  }

  lemma Append(q: seq<Buffer>, b: Buffer)
    requires NoDuplicates(q) && b !in q
    ensures NoDuplicates(q + [b])
  {
  }

  lemma DropFirst(b: Buffer, q: seq<Buffer>)
    requires NoDuplicates([b] + q)
    ensures b !in q && NoDuplicates(q)
  {
    var all := [b] + q;
    forall i, j | 0 <= i < j < |q|
      ensures q[i] != q[j]
    {
      assert all[i + 1] != all[j + 1];
    }
    forall i | 0 <= i < |q|
      ensures q[i] != b
    {
      assert all[0] != all[i + 1];
    }
  }

  /** A ring is sound, is used by its two threads only, and its queue holds, once each, the
      buffers whose place it is. */
  ghost predicate RingOk(s: System, r: RingId)
    requires r in s.rings
  {
    var m := s.rings[r];
    && R.Inv(m)
    && ProducerOf(r) in s.threads && ConsumerOf(r) in s.threads
    && (var l := s.threads[ProducerOf(r)];
        if l.Sending? && l.to == r then IsSending(m.producer, l.b) else m.producer == R.PIdle)
    && (if s.threads[ConsumerOf(r)] == Taking(r) then IsTaking(m.consumer) else m.consumer == R.CIdle)
    && NoDuplicates(Queued(m))
    && forall b: Buffer :: b in Queued(m) <==> b < |s.place| && s.place[b] == InRing(r)
  }

  ghost predicate ThreadOk(s: System, t: Thread)
    requires t in s.threads
  {
    match s.threads[t]
    case Idle => true
    case Holding(b) => b < |s.place| && s.place[b] == Hand(t)
    case Sending(b, r) => b < |s.place| && s.place[b] == Hand(t) && r in s.rings && ProducerOf(r) == t
    case Taking(r) => r in s.rings && ConsumerOf(r) == t
  }

  predicate InHand(l: Local, b: Buffer) {
    (l.Holding? || l.Sending?) && l.b == b
  }

  ghost predicate PlaceOk(s: System, b: Buffer)
    requires b < |s.place|
  {
    match s.place[b]
    case Hand(t) => t in s.threads && InHand(s.threads[t], b)
    case InRing(r) => r in s.rings
    case Freed(t) => t in s.threads
    case SetAside => true
  }

  ghost predicate FreedOk(s: System) {
    && NoDuplicates(s.freed)
    && forall b: Buffer :: b in s.freed <==> b < |s.place| && s.place[b].Freed?
  }

  ghost predicate Inv(s: System) {
    && |s.address| == |s.place|
    && s.totPkt.Keys == s.threads.Keys && s.totFree.Keys == s.threads.Keys
    && (forall r :: r in s.rings ==> RingOk(s, r))
    && (forall t :: t in s.threads ==> ThreadOk(s, t))
    && (forall b :: 0 <= b < |s.place| ==> PlaceOk(s, b))
    && FreedOk(s)
  }

  /** A ring that a step does not touch. */
  lemma OtherRing(s: System, n: System, q: RingId)
    requires q in s.rings && RingOk(s, q)
    requires q in n.rings && n.rings[q] == s.rings[q] && n.threads.Keys == s.threads.Keys
    requires var l, k := s.threads[ProducerOf(q)], n.threads[ProducerOf(q)];
             l == k || !((l.Sending? && l.to == q) || (k.Sending? && k.to == q))
    requires s.threads[ConsumerOf(q)] == Taking(q) <==> n.threads[ConsumerOf(q)] == Taking(q)
    requires forall b: Buffer :: SameRing(s, n, q, b)
    ensures RingOk(n, q)
  {
    hide Queued;
    hide R.Inv;
    assert forall b: Buffer :: b in Queued(n.rings[q]) <==> b < |n.place| && n.place[b] == InRing(q) by {
      forall b: Buffer
        ensures b in Queued(n.rings[q]) <==> b < |n.place| && n.place[b] == InRing(q)
      {
        assert SameRing(s, n, q, b);
      }
    }
  }

  predicate SameRing(s: System, n: System, q: RingId, b: Buffer) {
    (b < |s.place| && s.place[b] == InRing(q)) <==> (b < |n.place| && n.place[b] == InRing(q))
  }

  /** The same rings and threads. */
  predicate SameShape(s: System, n: System) {
    n.rings.Keys == s.rings.Keys && n.threads.Keys == s.threads.Keys
  }

  /** A thread that is at no other ring than `r`. */
  predicate OnlyAt(l: Local, r: RingId) {
    (l.Sending? ==> l.to == r) && (l.Taking? ==> l.from == r)
  }

  /** A step that changes one thread, one ring and at most the place of one buffer. */
  ghost predicate OneStep(s: System, n: System, t: Thread, r: RingId, b: Buffer) {
    && t in s.threads && r in s.rings && t in n.threads && r in n.rings
    && n.threads == s.threads[t := n.threads[t]] && n.rings == s.rings[r := n.rings[r]]
    && n.address == s.address && n.totPkt == s.totPkt && n.totFree == s.totFree && n.freed == s.freed
    && |n.place| == |s.place| && b <= |s.place|
    && (forall c :: 0 <= c < |s.place| && c != b ==> n.place[c] == s.place[c])
    && (b < |s.place| ==> s.place[b] in {Hand(t), InRing(r)} && n.place[b] in {Hand(t), InRing(r)})
    && OnlyAt(s.threads[t], r) && OnlyAt(n.threads[t], r)
    && (s.threads[t].Holding? || s.threads[t].Sending? ==> s.threads[t].b == b)
  }

  lemma RestRing(s: System, n: System, t: Thread, r: RingId, b: Buffer, q: RingId)
    requires OneStep(s, n, t, r, b)
    requires q in s.rings && q != r && RingOk(s, q)
    ensures RingOk(n, q)
  {
    hide R.Inv;
    hide Queued;
    forall c: Buffer
      ensures SameRing(s, n, q, c)
    {
    }
    assert ProducerOf(q) in s.threads && ConsumerOf(q) in s.threads;
    hide RingOk;
    OtherRing(s, n, q);
  }

  lemma RestPlace(s: System, n: System, t: Thread, r: RingId, b: Buffer, c: Buffer)
    requires OneStep(s, n, t, r, b)
    requires c < |s.place| && c != b && PlaceOk(s, c)
    ensures PlaceOk(n, c)
  {
  }

  lemma RestFreed(s: System, n: System, t: Thread, r: RingId, b: Buffer)
    requires OneStep(s, n, t, r, b) && FreedOk(s)
    ensures FreedOk(n)
  {
    hide NoDuplicates;
    forall c: Buffer
      ensures c in n.freed <==> c < |n.place| && n.place[c].Freed?
    {
      assert c in s.freed <==> c < |s.place| && s.place[c].Freed?;
    }
  }

  lemma RestKeeps(s: System, n: System, t: Thread, r: RingId, b: Buffer)
    requires Inv(s) && OneStep(s, n, t, r, b)
    requires RingOk(n, r) && ThreadOk(n, t) && (b < |s.place| ==> PlaceOk(n, b))
    ensures Inv(n)
  {
    hide RingOk;
    hide PlaceOk;
    hide FreedOk;
    forall q | q in n.rings
      ensures RingOk(n, q)
    {
      if q != r { RestRing(s, n, t, r, b, q); }
    }
    forall u | u in n.threads
      ensures ThreadOk(n, u)
    {
      assert ThreadOk(s, u);
    }
    forall c | 0 <= c < |n.place|
      ensures PlaceOk(n, c)
    {
      if c != b { RestPlace(s, n, t, r, b, c); }
    }
    RestFreed(s, n, t, r, b);
  }

  lemma BeginSendKeeps(s: System, t: Thread, r: RingId)
    requires Inv(s) && t in s.threads && s.threads[t].Holding?
    requires r in s.rings && ProducerOf(r) == t
    ensures Inv(BeginSend(s, t, r)) && SameShape(s, BeginSend(s, t, r))
  {
    hide NoDuplicates;
    hide Queued;
    hide R.Inv;
    hide R.Next;
    var n := BeginSend(s, t, r);
    var b := s.threads[t].b;
    assert RingOk(s, r) && ThreadOk(s, t);
    CallSend(s.rings[r], b);
    assert RingOk(n, r);
    RestKeeps(s, n, t, r, b);
  }

  lemma BeginTakeKeeps(s: System, t: Thread, r: RingId)
    requires Inv(s) && t in s.threads && s.threads[t] == Idle
    requires r in s.rings && ConsumerOf(r) == t
    ensures Inv(BeginTake(s, t, r)) && SameShape(s, BeginTake(s, t, r))
  {
    hide PlaceOk;
    hide NoDuplicates;
    hide Queued;
    hide R.Inv;
    hide R.Next;
    var n := BeginTake(s, t, r);
    assert RingOk(s, r);
    CallTake(s.rings[r]);
    assert RingOk(n, r);
    RestKeeps(s, n, t, r, |s.place|);
  }

  /** A buffer leaves a hand for good. */
  lemma Leaves(s: System, t: Thread, n: System)
    requires Inv(s) && t in s.threads && s.threads[t].Holding?
    requires ThreadOk(s, t)
    requires n.threads == s.threads[t := Idle] && n.rings == s.rings && n.address == s.address
    requires n.totPkt == s.totPkt && n.totFree == s.totFree
    requires var b := s.threads[t].b;
             || (n.place == s.place[b := Freed(t)] && n.freed == s.freed + [b])
             || (n.place == s.place[b := SetAside] && n.freed == s.freed)
    ensures Inv(n)
  {
    hide RingOk;
    hide Queued;
    hide R.Inv;
    forall q | q in n.rings
      ensures RingOk(n, q)
    {
      OtherRing(s, n, q);
    }
    forall u | u in n.threads
      ensures ThreadOk(n, u)
    {
      assert ThreadOk(s, u);
    }
    forall c | 0 <= c < |n.place|
      ensures PlaceOk(n, c)
    {
      assert PlaceOk(s, c);
    }
  }

  lemma FreeKeeps(s: System, t: Thread)
    requires Inv(s) && t in s.threads && s.threads[t].Holding?
    ensures Inv(Free(s, t)) && SameShape(s, Free(s, t)) && Free(s, t).threads[t] == Idle
  {
    assert ThreadOk(s, t);
    Leaves(s, t, Free(s, t));
  }

  lemma AbandonKeeps(s: System, t: Thread)
    requires Inv(s) && t in s.threads && s.threads[t].Holding?
    ensures Inv(Abandon(s, t)) && SameShape(s, Abandon(s, t))
  {
    assert ThreadOk(s, t);
    Leaves(s, t, Abandon(s, t));
  }

  lemma AllocateKeeps(s: System, t: Thread)
    requires Inv(s) && t in s.threads && s.threads[t] == Idle
    ensures Inv(Allocate(s, t)) && SameShape(s, Allocate(s, t))
  {
    hide RingOk;
    hide Queued;
    hide R.Inv;
    var n := Allocate(s, t);
    forall q | q in n.rings
      ensures RingOk(n, q)
    {
      OtherRing(s, n, q);
    }
    forall u | u in n.threads
      ensures ThreadOk(n, u)
    {
      assert ThreadOk(s, u);
    }
    forall c | 0 <= c < |n.place|
      ensures PlaceOk(n, c)
    {
      if c < |s.place| { assert PlaceOk(s, c); }
    }
  }

  /** The ring that a buffer is being sent through. */
  lemma SendingRing(s: System, t: Thread)
    requires Inv(s) && t in s.threads && s.threads[t].Sending?
    ensures ThreadOk(s, t) && RingOk(SendStep(s, t).0, s.threads[t].to)
  {
    hide Queued;
    hide R.Inv;
    hide R.Next;
    hide NoDuplicates;
    var Sending(b, r) := s.threads[t];
    assert ThreadOk(s, t) && RingOk(s, r);
    SendOne(s.rings[r], b);
    Append(Queued(s.rings[r]), b);
  }

  lemma SendStepKeeps(s: System, t: Thread)
    requires Inv(s) && t in s.threads && s.threads[t].Sending?
    ensures Inv(SendStep(s, t).0) && SameShape(s, SendStep(s, t).0)
    ensures SendStep(s, t).1 ==> SendStep(s, t).0.threads[t] in {Idle, Holding(s.threads[t].b)}
  {
    hide Queued;
    hide R.Inv;
    hide R.Next;
    hide RingOk;
    var n := SendStep(s, t).0;
    var Sending(b, r) := s.threads[t];
    SendingRing(s, t);
    RestKeeps(s, n, t, r, b);
  }

  lemma TakingRing(s: System, t: Thread)
    requires Inv(s) && t in s.threads && s.threads[t].Taking?
    ensures ThreadOk(s, t) && RingOk(TakeStep(s, t).0, s.threads[t].from)
  {
    hide Queued;
    hide R.Inv;
    hide R.Next;
    hide NoDuplicates;
    var r := s.threads[t].from;
    assert ThreadOk(s, t) && RingOk(s, r);
    TakenFrom(s, r);
    TakeOne(s.rings[r]);
    var (m, e) := R.Next(s.rings[r], R.ConsumerStep);
    if e.Dequeued? {
      assert e.objs == [e.objs[0]];
      assert forall c: Buffer :: c in Queued(s.rings[r]) <==> c == e.objs[0] || c in Queued(m);
      DropFirst(e.objs[0], Queued(m));
    }
  }

  lemma TakingAt(s: System, t: Thread)
    requires Inv(s) && t in s.threads && s.threads[t].Taking?
    ensures var r := s.threads[t].from;
            ThreadOk(s, t) && r in s.rings && RingOk(s, r) && R.Inv(s.rings[r]) && IsTaking(s.rings[r].consumer)
  {
    hide Queued;
    hide R.Inv;
    assert ThreadOk(s, t);
    assert RingOk(s, s.threads[t].from);
  }

  lemma TakingIsOneStep(s: System, t: Thread)
    requires Inv(s) && t in s.threads && s.threads[t].Taking?
    ensures var r := s.threads[t].from;
            && r in s.rings && R.Inv(s.rings[r])
            && (var e := R.Next(s.rings[r], R.ConsumerStep).1;
                && (e.Dequeued? ==> |e.objs| == 1 && e.objs[0] < |s.place|)
                && OneStep(s, TakeStep(s, t).0, t, r, if e.Dequeued? then e.objs[0] else |s.place|))
  {
    hide Inv;
    hide R.Inv;
    hide R.Next;
    hide RingOk;
    TakingAt(s, t);
    TakenFrom(s, s.threads[t].from);
  }

  lemma TakeStepKeeps(s: System, t: Thread)
    requires Inv(s) && t in s.threads && s.threads[t].Taking?
    ensures Inv(TakeStep(s, t).0) && SameShape(s, TakeStep(s, t).0)
  {
    hide Queued;
    hide R.Inv;
    hide R.Next;
    hide RingOk;
    hide FreedOk;
    hide OneStep;
    var n := TakeStep(s, t).0;
    var r := s.threads[t].from;
    TakingRing(s, t);
    TakingIsOneStep(s, t);
    var e := R.Next(s.rings[r], R.ConsumerStep).1;
    RestKeeps(s, n, t, r, if e.Dequeued? then e.objs[0] else |s.place|);
  }

  /** Totals and addresses change; buffers stay where they are. */
  lemma BooksKeep(s: System, n: System)
    requires Inv(s)
    requires n.rings == s.rings && n.threads == s.threads && n.place == s.place && n.freed == s.freed
    requires |n.address| == |s.address| && n.totPkt.Keys == s.totPkt.Keys && n.totFree.Keys == s.totFree.Keys
    ensures Inv(n)
  {
    hide R.Inv;
    hide Queued;
    forall q | q in n.rings
      ensures RingOk(n, q)
    {
      assert RingOk(s, q);
    }
    forall u | u in n.threads
      ensures ThreadOk(n, u)
    {
      assert ThreadOk(s, u);
    }
    forall c | 0 <= c < |n.place|
      ensures PlaceOk(n, c)
    {
      assert PlaceOk(s, c);
    }
  }

  lemma Shape(s: System)
    requires Inv(s)
    ensures |s.address| == |s.place|
    ensures s.totPkt.Keys == s.threads.Keys && s.totFree.Keys == s.threads.Keys
    ensures forall t :: t in s.threads ==> ThreadOk(s, t)
  {
  }

  // ----- the loops

  /** plugin_lookup_with_ip_dec, the dedicated cores of each plugin, and nb_masters. */
  datatype Config = Config(lookup: map<Address, nat>, cores: map<nat, seq<nat>>, masters: nat)

  /** What main has set up: a receiver, the masters and the workers, a ring to each master, and
      from each master a ring to each dedicated core of each plugin. */
  ghost predicate Configured(cfg: Config, s: System) {
    Ready(cfg, s.threads.Keys, s.rings.Keys)
  }

  ghost predicate Ready(cfg: Config, threads: set<Thread>, rings: set<RingId>) {
    && cfg.masters > 0
    && Receiver in threads
    && (forall m: nat :: m < cfg.masters ==> Master(m) in threads && ToMaster(m) in rings)
    && (forall a :: a in cfg.lookup ==> cfg.lookup[a] in cfg.cores)
    && (forall p :: p in cfg.cores ==> cfg.cores[p] != [])
    && (forall p, c, m: nat :: p in cfg.cores && c in cfg.cores[p] && m < cfg.masters ==>
          Worker(c) in threads && ToWorker(p, c, m) in rings)
  }

  /** One step of a thread; `choice` is rand(), `from` the sender of a packet. */
  datatype Action =
    | ReceiverTurn(choice: nat, from: Address)
    | MasterTurn(master: nat, choice: nat)
    | WorkerTurn(core: nat, plugin: nat, master: nat)

  function ThreadOf(a: Action): Thread {
    match a
    case ReceiverTurn(_, _) => Receiver
    case MasterTurn(m, _) => Master(m)
    case WorkerTurn(c, _, _) => Worker(c)
  }

  /** A thread that has turns. */
  predicate Runs(cfg: Config, s: System, t: Thread) {
    t in s.threads && (t.Master? ==> t.index < cfg.masters)
  }

  function CountPacket(s: System, t: Thread): System
    requires t in s.totPkt
  {
    s.(totPkt := s.totPkt[t := s.totPkt[t] + 1])
  }

  function CountFreed(s: System, t: Thread): System
    requires t in s.totFree
  {
    s.(totFree := s.totFree[t := s.totFree[t] + 1])
  }

  /** ring_enqueue goes on; a buffer that was refused is freed and counted. */
  function SendOrFree(s: System, t: Thread): (r: (System, bool))
    requires Inv(s) && t in s.threads && s.threads[t].Sending?
    ensures Inv(r.0) && SameShape(s, r.0)
    ensures r.1 ==> r.0.threads[t] == Idle
  {
    hide SendStep;
    hide Free;
    hide CountFreed;
    hide Inv;
    hide ThreadOk;
    SendStepKeeps(s, t);
    var (n, over) := SendStep(s, t);
    if over && n.threads[t].Holding? then
      FreeKeeps(n, t);
      CountFreedKeeps(Free(n, t), t);
      (CountFreed(Free(n, t), t), true)
    else (n, over)
  }

  lemma CountFreedKeeps(s: System, t: Thread)
    requires Inv(s) && t in s.threads
    ensures t in s.totFree && Inv(CountFreed(s, t)) && SameShape(s, CountFreed(s, t)) && CountFreed(s, t).threads == s.threads
  {
    BooksKeep(s, CountFreed(s, t));
  }

  /** receiver_loop: recvfrom into pkt, enqueue it to any master, get a new buffer. */
  function ReceiverNext(cfg: Config, s: System, choice: nat, from: Address): (n: System)
    requires Inv(s) && Configured(cfg, s)
    ensures Inv(n) && SameShape(s, n)
  {
    hide BeginSend;
    hide SendOrFree;
    hide Allocate;
    hide Inv;
    Shape(s);
    match s.threads[Receiver]
    case Holding(b) =>
      var r := s.(address := s.address[b := from]);
      BooksKeep(s, r);
      BeginSendKeeps(r, Receiver, ToMaster(choice % cfg.masters));
      BeginSend(r, Receiver, ToMaster(choice % cfg.masters))
    case Sending(_, _) =>
      var (r, over) := SendOrFree(s, Receiver);
      Shape(r);
      if !over then r
      else
        BooksKeep(r, CountPacket(r, Receiver));
        AllocateKeeps(CountPacket(r, Receiver), Receiver);
        Allocate(CountPacket(r, Receiver), Receiver)
    case _ => s
  }

  /** main_loop: dequeue from the receiver's ring, look the plugin up, enqueue to one of its
      cores.  A buffer whose address no plugin has is neither passed on nor freed. */
  function MasterNext(cfg: Config, s: System, m: nat, choice: nat): (n: System)
    requires Inv(s) && Configured(cfg, s)
    ensures Inv(n) && SameShape(s, n)
  {
    hide BeginSend;
    hide BeginTake;
    hide SendOrFree;
    hide TakeStep;
    hide Abandon;
    hide Inv;
    Shape(s);
    var t := Master(m);
    if m >= cfg.masters then s
    else
      match s.threads[t]
      case Idle => BeginTakeKeeps(s, t, ToMaster(m)); BeginTake(s, t, ToMaster(m))
      case Taking(_) => TakeStepKeeps(s, t); TakeStep(s, t).0
      case Holding(b) =>
        if s.address[b] !in cfg.lookup then AbandonKeeps(s, t); Abandon(s, t)
        else
          var p := cfg.lookup[s.address[b]];
          var c := cfg.cores[p][choice % |cfg.cores[p]|];
          BooksKeep(s, CountPacket(s, t));
          BeginSendKeeps(CountPacket(s, t), t, ToWorker(p, c, m));
          BeginSend(CountPacket(s, t), t, ToWorker(p, c, m))
      case Sending(_, _) => SendOrFree(s, t).0
  }

  /** worker_loop: dequeue from a ring of one of its plugins, use the buffer, free it. */
  function WorkerNext(s: System, c: nat, p: nat, m: nat): (n: System)
    requires Inv(s)
    ensures Inv(n) && SameShape(s, n)
  {
    hide BeginTake;
    hide TakeStep;
    hide Free;
    hide Inv;
    var t := Worker(c);
    if t !in s.threads then s
    else
      match s.threads[t]
      case Idle =>
        if ToWorker(p, c, m) in s.rings then BeginTakeKeeps(s, t, ToWorker(p, c, m)); BeginTake(s, t, ToWorker(p, c, m))
        else s
      case Taking(_) => TakeStepKeeps(s, t); TakeStep(s, t).0
      case Holding(_) => FreeKeeps(s, t); Free(s, t)
      case Sending(_, _) => s
  }

  function Next(cfg: Config, s: System, a: Action): (n: System)
    requires Inv(s) && Configured(cfg, s)
    ensures Inv(n) && Configured(cfg, n)
  {
    hide ReceiverNext;
    hide MasterNext;
    hide WorkerNext;
    hide Inv;
    hide Ready;
    match a
    case ReceiverTurn(choice, from) => ReceiverNext(cfg, s, choice, from)
    case MasterTurn(m, choice) => MasterNext(cfg, s, m, choice)
    case WorkerTurn(c, p, m) => WorkerNext(s, c, p, m)
  }
}
