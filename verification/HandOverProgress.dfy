/** The threads of the hand-over get somewhere: every ring operation that a thread has begun ends
    within so many of its own turns, whatever the other threads do in between. */
module HandOverProgress {
  import opened HandOver
  import opened HandOverBooks
  import opened HandOverRuns
  import R = RingMachine
  import P = RingProgress

  // ----- one turn

  /** A ring on which thread `u` has acted, if it has one of its ends: the other end, and what is in
      the queue, are as they were. */
  ghost predicate RingAside(m: R.Machine<Buffer>, n: R.Machine<Buffer>, r: RingId, u: Thread) {
    && R.Inv(m) && R.Inv(n) && n.g == m.g
    && (ProducerOf(r) != u ==> n.producer == m.producer)
    && (ConsumerOf(r) != u ==> n.consumer == m.consumer && Queued(m) <= Queued(n))
  }

  /** A turn of thread `u`. */
  ghost predicate Aside(s: System, n: System, u: Thread) {
    && u in s.threads && u in n.threads && n.threads == s.threads[u := n.threads[u]]
    && n.rings.Keys == s.rings.Keys
    && forall r :: r in s.rings ==> RingAside(s.rings[r], n.rings[r], r, u)
  }

  /** At most one ring is touched. */
  lemma OneRing(s: System, n: System, u: Thread, r: RingId)
    requires Inv(s) && u in s.threads && u in n.threads && n.threads == s.threads[u := n.threads[u]]
    requires n.rings == s.rings || (r in s.rings && r in n.rings && n.rings == s.rings[r := n.rings[r]]
                                    && RingAside(s.rings[r], n.rings[r], r, u))
    ensures Aside(s, n, u)
  {
    hide R.Inv;
    hide Queued;
    forall q | q in s.rings
      ensures RingAside(s.rings[q], n.rings[q], q, u)
    {
      assert RingOk(s, q);
    }
  }

  lemma BeginSendAside(s: System, t: Thread, r: RingId)
    requires Inv(s) && t in s.threads && s.threads[t].Holding? && r in s.rings && ProducerOf(r) == t
    ensures var n := BeginSend(s, t, r);
            && Aside(s, n, t) && n.threads[t] == Sending(s.threads[t].b, r)
            && r in n.rings && n.rings == s.rings[r := n.rings[r]] && P.ProducerLeft(n.rings[r].producer) == 5
  {
    hide R.Inv;
    hide Queued;
    assert RingOk(s, r) && ThreadOk(s, t);
    CallSend(s.rings[r], s.threads[t].b);
    OneRing(s, BeginSend(s, t, r), t, r);
  }

  lemma BeginTakeAside(s: System, t: Thread, r: RingId)
    requires Inv(s) && t in s.threads && s.threads[t] == Idle && r in s.rings && ConsumerOf(r) == t
    ensures var n := BeginTake(s, t, r);
            && Aside(s, n, t) && n.threads[t] == Taking(r) && P.ConsumerLeft(n.rings[r].consumer) == 5
            && R.Inv(s.rings[r]) && R.Inv(n.rings[r]) && Queued(n.rings[r]) == Queued(s.rings[r])
  {
    hide R.Inv;
    hide Queued;
    assert RingOk(s, r);
    CallTake(s.rings[r]);
    OneRing(s, BeginTake(s, t, r), t, r);
  }

  /** What one turn of sending does to the ring. */
  lemma SendRing(s: System, t: Thread)
    requires Inv(s) && t in s.threads && s.threads[t].Sending?
    ensures var r := s.threads[t].to;
            && r in s.rings && R.Inv(s.rings[r]) && ProducerOf(r) == t && IsSending(s.rings[r].producer, s.threads[t].b)
            && SendOrFree(s, t).0.rings == s.rings[r := R.Next(s.rings[r], R.ProducerStep).0]
  {
    hide R.Inv;
    hide R.Next;
    hide Queued;
    hide PlaceOk;
    hide FreedOk;
    hide RingOk;
    Shape(s);
    assert RingOk(s, s.threads[t].to) && ThreadOk(s, t);
    SendingTo(s, t);
  }

  /** One turn of sending: the end comes nearer, or is there. */
  lemma SendAside(s: System, t: Thread)
    requires Inv(s) && t in s.threads && s.threads[t].Sending?
    ensures var (n, over) := SendOrFree(s, t);
            var r := s.threads[t].to;
            && r in s.rings && Aside(s, n, t) && n.rings == s.rings[r := n.rings[r]]
            && n.threads[t] == (if over then Idle else s.threads[t])
            && (!over ==> P.ProducerLeft(n.rings[r].producer) < P.ProducerLeft(s.rings[r].producer))
  {
    hide R.Inv;
    hide R.Next;
    hide Queued;
    hide SendOrFree;
    hide Aside;
    SendRing(s, t);
    SendEffect(s, t);
    var r := s.threads[t].to;
    SendOne(s.rings[r], s.threads[t].b);
    SendFalls(s.rings[r], s.threads[t].b);
    OneRing(s, SendOrFree(s, t).0, t, r);
  }

  lemma SendFalls(m: R.Machine<Buffer>, b: Buffer)
    requires R.Inv(m) && IsSending(m.producer, b)
    ensures 0 < P.ProducerLeft(m.producer) <= 5
    ensures P.ProducerLeft(R.Next(m, R.ProducerStep).0.producer) < P.ProducerLeft(m.producer)
  {
    P.ProducerFalls(m);
  }

  /** One turn of taking: the end comes nearer, or the thread has the first buffer, or there is
      none. */
  lemma TakeAside(s: System, t: Thread)
    requires Inv(s) && t in s.threads && s.threads[t].Taking?
    ensures var n := TakeStep(s, t).0;
            var r := s.threads[t].from;
            && r in s.rings && Aside(s, n, t) && R.Inv(s.rings[r]) && R.Inv(n.rings[r])
            && match n.threads[t]
               case Taking(q) =>
                 && q == r && Queued(n.rings[r]) == Queued(s.rings[r])
                 && P.ConsumerLeft(n.rings[r].consumer) < P.ConsumerLeft(s.rings[r].consumer)
               case Holding(b) => Queued(s.rings[r]) == [b] + Queued(n.rings[r])
               case Idle => Queued(s.rings[r]) == Queued(n.rings[r]) == []
               case _ => false
  {
    hide R.Inv;
    hide R.Next;
    hide Queued;
    hide PlaceOk;
    hide FreedOk;
    var r := s.threads[t].from;
    TakingAt(s, t);
    TakenFrom(s, r);
    TakeOne(s.rings[r]);
    TakeFalls(s.rings[r]);
    var e := R.Next(s.rings[r], R.ConsumerStep).1;
    if e.Dequeued? { assert e.objs == [e.objs[0]]; }
    OneRing(s, TakeStep(s, t).0, t, r);
  }

  lemma TakeFalls(m: R.Machine<Buffer>)
    requires R.Inv(m) && IsTaking(m.consumer)
    ensures 0 < P.ConsumerLeft(m.consumer) <= 5
    ensures P.ConsumerLeft(R.Next(m, R.ConsumerStep).0.consumer) < P.ConsumerLeft(m.consumer)
  {
    P.ConsumerFalls(m);
  }

  lemma ReceiverAside(cfg: Config, s: System, choice: nat, from: Address)
    requires Inv(s) && Configured(cfg, s)
    ensures Aside(s, ReceiverNext(cfg, s, choice, from), Receiver)
  {
    hide R.Inv;
    hide Inv;
    hide BeginSend;
    hide SendOrFree;
    hide Queued;
    hide RingAside;
    Shape(s);
    var n := ReceiverNext(cfg, s, choice, from);
    match s.threads[Receiver] {
      case Holding(b) =>
        var r := s.(address := s.address[b := from]);
        BooksKeep(s, r);
        BeginSendAside(r, Receiver, ToMaster(choice % cfg.masters));
        assert n.threads == s.threads[Receiver := n.threads[Receiver]];
      case Sending(_, _) =>
        SendAside(s, Receiver);
        var (r, over) := SendOrFree(s, Receiver);
        assert n.rings == r.rings;
      case _ => OneRing(s, n, Receiver, ToMaster(0));
    }
  }

  lemma MasterAside(cfg: Config, s: System, m: nat, choice: nat)
    requires Inv(s) && Configured(cfg, s)
    ensures var n := MasterNext(cfg, s, m, choice); if m < cfg.masters then Aside(s, n, Master(m)) else n == s
  {
    hide R.Inv;
    hide Inv;
    hide BeginSend;
    hide BeginTake;
    hide SendOrFree;
    hide TakeStep;
    hide Queued;
    hide RingAside;
    Shape(s);
    var n, t := MasterNext(cfg, s, m, choice), Master(m);
    if m < cfg.masters {
      match s.threads[t] {
        case Idle => BeginTakeAside(s, t, ToMaster(m));
        case Taking(_) => TakeAside(s, t);
        case Holding(b) =>
          if s.address[b] !in cfg.lookup {
            OneRing(s, n, t, ToMaster(m));
          } else {
            var p := cfg.lookup[s.address[b]];
            var c := cfg.cores[p][choice % |cfg.cores[p]|];
            BooksKeep(s, CountPacket(s, t));
            BeginSendAside(CountPacket(s, t), t, ToWorker(p, c, m));
          }
        case Sending(_, _) => SendAside(s, t);
      }
    }
  }

  lemma WorkerAside(s: System, c: nat, p: nat, m: nat)
    requires Inv(s)
    ensures var n := WorkerNext(s, c, p, m); if Worker(c) in s.threads then Aside(s, n, Worker(c)) else n == s
  {
    hide R.Inv;
    hide Inv;
    hide BeginTake;
    hide TakeStep;
    hide Queued;
    var n, t := WorkerNext(s, c, p, m), Worker(c);
    if t in s.threads {
      match s.threads[t] {
        case Idle =>
          if ToWorker(p, c, m) in s.rings {
            BeginTakeAside(s, t, ToWorker(p, c, m));
          } else {
            OneRing(s, n, t, ToWorker(p, c, m));
          }
        case Taking(_) => TakeAside(s, t);
        case Holding(_) => OneRing(s, n, t, ToWorker(p, c, m));
        case Sending(_, _) => OneRing(s, n, t, ToWorker(p, c, m));
      }
    }
  }

  // ----- runs

  function Turns(schedule: seq<Action>, t: Thread): (k: nat)
    ensures k <= |schedule|
  {
    if schedule == [] then 0 else (if ThreadOf(schedule[0]) == t then 1 else 0) + Turns(schedule[1..], t)
  }

  /** The system after the first `k` turns. */
  ghost function After(cfg: Config, s: System, schedule: seq<Action>, k: nat): (n: System)
    requires Inv(s) && Configured(cfg, s) && k <= |schedule|
    ensures Inv(n) && Configured(cfg, n)
  {
    Run(cfg, s, schedule[..k])
  }

  lemma AfterFirst(cfg: Config, s: System, schedule: seq<Action>, k: nat)
    requires Inv(s) && Configured(cfg, s) && k < |schedule|
    ensures After(cfg, s, schedule, 0) == s
    ensures After(cfg, s, schedule, k + 1) == After(cfg, Next(cfg, s, schedule[0]), schedule[1..], k)
  {
    hide Inv;
    hide Configured;
    hide Next;
    assert schedule[..k + 1][0] == schedule[0] && schedule[..k + 1][1..] == schedule[1..][..k];
  }

  lemma TurnsFirst(schedule: seq<Action>, i: nat, t: Thread)
    requires i < |schedule|
    ensures Turns(schedule[..i + 1], t) == (if ThreadOf(schedule[0]) == t then 1 else 0) + Turns(schedule[1..][..i], t)
  {
    assert schedule[..i + 1][1..] == schedule[1..][..i];
  }

  /** The turn of another thread leaves a thread and its ends of the rings alone. */
  lemma OthersTurn(cfg: Config, s: System, a: Action, t: Thread)
    requires Inv(s) && Configured(cfg, s) && Runs(cfg, s, t) && ThreadOf(a) != t
    ensures var n := Next(cfg, s, a);
            && Runs(cfg, n, t) && n.threads[t] == s.threads[t] && n.rings.Keys == s.rings.Keys
            && forall r :: r in s.rings ==>
                 && R.Inv(s.rings[r]) && R.Inv(n.rings[r])
                 && (ProducerOf(r) == t ==> n.rings[r].producer == s.rings[r].producer)
                 && (ConsumerOf(r) == t ==>
                       n.rings[r].consumer == s.rings[r].consumer && Queued(s.rings[r]) <= Queued(n.rings[r]))
  {
    hide R.Inv;
    hide Queued;
    hide ReceiverNext;
    hide MasterNext;
    hide WorkerNext;
    hide Configured;
    Alone(s, t);
    hide Inv;
    match a
    case ReceiverTurn(choice, from) => ReceiverAside(cfg, s, choice, from);
    case MasterTurn(m, choice) => MasterAside(cfg, s, m, choice);
    case WorkerTurn(c, p, m) => WorkerAside(s, c, p, m);
  }

  lemma Alone(s: System, t: Thread)
    requires Inv(s)
    ensures forall r :: r in s.rings ==> R.Inv(s.rings[r])
  {
    hide R.Inv;
    forall r | r in s.rings
      ensures R.Inv(s.rings[r])
    {
      assert RingOk(s, r);
    }
  }

  /** The turn of a thread that is sending. */
  lemma SendersTurn(cfg: Config, s: System, a: Action, t: Thread)
    requires Inv(s) && Configured(cfg, s) && Runs(cfg, s, t) && ThreadOf(a) == t && s.threads[t].Sending?
    ensures var n, over := Next(cfg, s, a), SendOrFree(s, t).1;
            var Sending(b, r) := s.threads[t];
            && Runs(cfg, n, t) && r in s.rings && r in n.rings && R.Inv(s.rings[r]) && b < |n.place|
            && (over ==> n.place[b] == InRing(r)
                         || (n.place[b] == Freed(t) && |Queued(s.rings[r])| == s.rings[r].g.capacity))
            && (!over ==> n.threads[t] == s.threads[t]
                          && P.ProducerLeft(n.rings[r].producer) < P.ProducerLeft(s.rings[r].producer))
  {
    hide R.Inv;
    hide Queued;
    hide SendOrFree;
    hide ReceiverNext;
    hide MasterNext;
    hide WorkerNext;
    SendLeft(s, t);
    hide Inv;
    hide Aside;
    SendEffect(s, t);
    SendAside(s, t);
    match a
    case ReceiverTurn(choice, from) => ReceiverSends(cfg, s, choice, from);
    case MasterTurn(m, choice) => MasterSendsOn(cfg, s, m, choice);
    case WorkerTurn(_, _, _) => assert false;
  }

  lemma ReceiverSends(cfg: Config, s: System, choice: nat, from: Address)
    requires Inv(s) && Configured(cfg, s) && s.threads[Receiver].Sending?
    ensures var n, (r, over) := ReceiverNext(cfg, s, choice, from), SendOrFree(s, Receiver);
            && n.rings == r.rings && r.place <= n.place && Receiver in n.threads
            && (!over ==> n == r)
  {
    hide SendOrFree;
    hide Inv;
  }

  lemma MasterSendsOn(cfg: Config, s: System, m: nat, choice: nat)
    requires Inv(s) && Configured(cfg, s) && m < cfg.masters && Master(m) in s.threads && s.threads[Master(m)].Sending?
    ensures MasterNext(cfg, s, m, choice) == SendOrFree(s, Master(m)).0
  {
    hide SendOrFree;
    hide Inv;
  }

  /** Sending `b` through `r` ends with turn `i`: the ring has the buffer, or the ring was full and the
      buffer has been freed. */
  ghost predicate SendEndsAt(cfg: Config, s: System, schedule: seq<Action>, t: Thread, i: nat)
    requires Inv(s) && Configured(cfg, s) && t in s.threads && s.threads[t].Sending?
  {
    var Sending(b, r) := s.threads[t];
    && i < |schedule| && ThreadOf(schedule[i]) == t
    && var x, y := After(cfg, s, schedule, i), After(cfg, s, schedule, i + 1);
       && t in x.threads && x.threads[t] == Sending(b, r) && r in x.rings && R.Inv(x.rings[r]) && b < |y.place|
       && (y.place[b] == InRing(r) || (y.place[b] == Freed(t) && |Queued(x.rings[r])| == x.rings[r].g.capacity))
  }

  /** A send that is under way ends within five turns of its thread. */
  lemma {:induction false} SendEnds(cfg: Config, s: System, schedule: seq<Action>, t: Thread) returns (i: nat)
    requires Inv(s) && Configured(cfg, s) && Runs(cfg, s, t) && s.threads[t].Sending?
    requires s.threads[t].to in s.rings && Turns(schedule, t) >= P.ProducerLeft(s.rings[s.threads[t].to].producer)
    ensures SendEndsAt(cfg, s, schedule, t, i)
    ensures Turns(schedule[..i + 1], t) <= P.ProducerLeft(s.rings[s.threads[t].to].producer) <= 5
    decreases |schedule|
  {
    hide Inv;
    hide Configured;
    hide Next;
    hide Run;
    hide R.Inv;
    hide Queued;
    hide SendOrFree;
    SendLeft(s, t);
    var a, n := schedule[0], Next(cfg, s, schedule[0]);
    AfterFirst(cfg, s, schedule, 0);
    if ThreadOf(a) == t { SendersTurn(cfg, s, a, t); } else { OthersTurn(cfg, s, a, t); }
    if ThreadOf(a) == t && SendOrFree(s, t).1 {
      i := 0;
      AfterNothing(cfg, n, schedule[1..]);
      TurnsFirst(schedule, 0, t);
    } else {
      OthersEnd(s, t);
      i := SendEnds(cfg, n, schedule[1..], t);
      AfterFirst(cfg, s, schedule, i);
      AfterFirst(cfg, s, schedule, i + 1);
      TurnsFirst(schedule, i + 1, t);
      i := i + 1;
    }
  }

  lemma AfterNothing(cfg: Config, s: System, schedule: seq<Action>)
    requires Inv(s) && Configured(cfg, s)
    ensures After(cfg, s, schedule, 0) == s
  {
  }

  lemma SendLeft(s: System, t: Thread)
    requires Inv(s) && t in s.threads && s.threads[t].Sending?
    ensures var Sending(b, r) := s.threads[t];
            r in s.rings && R.Inv(s.rings[r]) && ProducerOf(r) == t && 0 < P.ProducerLeft(s.rings[r].producer) <= 5
  {
    hide R.Inv;
    hide Queued;
    assert ThreadOk(s, t) && RingOk(s, s.threads[t].to);
    SendFalls(s.rings[s.threads[t].to], s.threads[t].b);
  }

  lemma OthersEnd(s: System, t: Thread)
    requires Inv(s) && t in s.threads
    ensures s.threads[t].Sending? ==> ProducerOf(s.threads[t].to) == t
    ensures s.threads[t].Taking? ==> ConsumerOf(s.threads[t].from) == t
  {
    assert ThreadOk(s, t);
  }

  /** Taking from `r` ends with turn `i`: the thread has the first buffer of the queue, or the queue
      was empty. */
  ghost predicate TakeEndsAt(cfg: Config, s: System, schedule: seq<Action>, t: Thread, i: nat)
    requires Inv(s) && Configured(cfg, s) && t in s.threads && s.threads[t].Taking?
  {
    var r := s.threads[t].from;
    && i < |schedule| && ThreadOf(schedule[i]) == t
    && var x, y := After(cfg, s, schedule, i), After(cfg, s, schedule, i + 1);
       && t in x.threads && x.threads[t] == Taking(r) && t in y.threads
       && r in x.rings && r in y.rings && R.Inv(x.rings[r]) && R.Inv(y.rings[r])
       && match y.threads[t]
          case Holding(b) => Queued(x.rings[r]) == [b] + Queued(y.rings[r])
          case Idle => Queued(x.rings[r]) == Queued(y.rings[r]) == []
          case _ => false
  }

  lemma TakersTurn(cfg: Config, s: System, a: Action, t: Thread)
    requires Inv(s) && Configured(cfg, s) && Runs(cfg, s, t) && ThreadOf(a) == t && t != Receiver && s.threads[t].Taking?
    ensures Next(cfg, s, a) == TakeStep(s, t).0 && Runs(cfg, Next(cfg, s, a), t)
  {
    hide Inv;
    hide TakeStep;
    hide RingAside;
    hide Queued;
    TakeAside(s, t);
  }

  lemma TakeLeft(s: System, t: Thread)
    requires Inv(s) && t in s.threads && s.threads[t].Taking?
    ensures var r := s.threads[t].from;
            r in s.rings && R.Inv(s.rings[r]) && ConsumerOf(r) == t && 0 < P.ConsumerLeft(s.rings[r].consumer) <= 5
    ensures t != Receiver
  {
    hide R.Inv;
    hide Queued;
    TakingAt(s, t);
    TakeFalls(s.rings[s.threads[t].from]);
  }

  /** A take that is under way ends within five turns of its thread, and with the first buffer of the
      queue if there is one now. */
  lemma {:induction false} TakeEnds(cfg: Config, s: System, schedule: seq<Action>, t: Thread) returns (i: nat)
    requires Inv(s) && Configured(cfg, s) && Runs(cfg, s, t) && s.threads[t].Taking?
    requires s.threads[t].from in s.rings && Turns(schedule, t) >= P.ConsumerLeft(s.rings[s.threads[t].from].consumer)
    ensures TakeEndsAt(cfg, s, schedule, t, i)
    ensures Turns(schedule[..i + 1], t) <= P.ConsumerLeft(s.rings[s.threads[t].from].consumer) <= 5
    ensures var r := s.threads[t].from;
            && R.Inv(s.rings[r])
            && (Queued(s.rings[r]) != [] ==> After(cfg, s, schedule, i + 1).threads[t] == Holding(Queued(s.rings[r])[0]))
    decreases |schedule|
  {
    hide Inv;
    hide Configured;
    hide Next;
    hide Run;
    hide R.Inv;
    hide Queued;
    hide TakeStep;
    TakeLeft(s, t);
    var a, n := schedule[0], Next(cfg, s, schedule[0]);
    AfterFirst(cfg, s, schedule, 0);
    if ThreadOf(a) == t {
      TakersTurn(cfg, s, a, t);
      TakeAside(s, t);
    } else {
      OthersTurn(cfg, s, a, t);
    }
    if n.threads[t].Taking? {
      i := TakeEnds(cfg, n, schedule[1..], t);
      AfterFirst(cfg, s, schedule, i);
      AfterFirst(cfg, s, schedule, i + 1);
      TurnsFirst(schedule, i + 1, t);
      i := i + 1;
    } else {
      i := 0;
      AfterNothing(cfg, n, schedule[1..]);
      TurnsFirst(schedule, 0, t);
    }
  }

  // ----- buffers get through

  predicate MasterThere(s: System, m: nat) {
    && Master(m) in s.threads
    && (s.threads[Master(m)].Taking? ==> s.threads[Master(m)].from in s.rings)
    && (s.threads[Master(m)].Sending? ==> s.threads[Master(m)].to in s.rings)
  }

  /** How many turns a master takes at most until it has the first buffer of its ring, if there is
      one. */
  function MasterLeft(s: System, m: nat): nat
    requires MasterThere(s, m)
  {
    match s.threads[Master(m)]
    case Taking(r) => P.ConsumerLeft(s.rings[r].consumer)
    case Idle => 6
    case Sending(_, r) => 6 + P.ProducerLeft(s.rings[r].producer)
    case Holding(_) => 12
  }

  lemma MasterAt(cfg: Config, s: System, m: nat)
    requires Inv(s) && Configured(cfg, s) && m < cfg.masters
    ensures MasterThere(s, m) && ToMaster(m) in s.rings && R.Inv(s.rings[ToMaster(m)])
    ensures s.threads[Master(m)].Taking? ==> s.threads[Master(m)].from == ToMaster(m)
    ensures s.threads[Master(m)].Sending? ==> s.threads[Master(m)].to in s.rings && s.threads[Master(m)].to.ToWorker?
    ensures 0 < MasterLeft(s, m) <= 12
  {
    hide R.Inv;
    hide Queued;
    assert RingOk(s, ToMaster(m)) && ThreadOk(s, Master(m));
    if s.threads[Master(m)].Taking? {
      TakeLeft(s, Master(m));
    } else if s.threads[Master(m)].Sending? {
      SendLeft(s, Master(m));
    }
  }

  /** A turn of a master whose ring holds something: it has the first buffer, or is nearer to it. */
  lemma MasterTurns(cfg: Config, s: System, m: nat, choice: nat)
    requires Inv(s) && Configured(cfg, s) && m < cfg.masters
    requires ToMaster(m) in s.rings && R.Inv(s.rings[ToMaster(m)]) && Queued(s.rings[ToMaster(m)]) != []
    ensures MasterNearer(s, MasterNext(cfg, s, m, choice), m)
  {
    hide R.Inv;
    hide BeginTake;
    hide SendOrFree;
    hide TakeStep;
    hide Queued;
    hide Aside;
    MasterAt(cfg, s, m);
    hide MasterLeft;
    match s.threads[Master(m)] {
      case Idle => MasterBegins(s, m);
      case Taking(_) => MasterTakes(s, m);
      case Holding(b) => MasterPasses(cfg, s, m, choice);
      case Sending(_, _) => MasterSends(s, m);
    }
  }

  ghost predicate MasterNearer(s: System, n: System, m: nat) {
    && MasterThere(s, m) && MasterThere(n, m)
    && ToMaster(m) in s.rings && R.Inv(s.rings[ToMaster(m)]) && ToMaster(m) in n.rings && R.Inv(n.rings[ToMaster(m)])
    && if s.threads[Master(m)].Taking? && n.threads[Master(m)].Holding? then
         Queued(s.rings[ToMaster(m)]) == [n.threads[Master(m)].b] + Queued(n.rings[ToMaster(m)])
       else
         Queued(n.rings[ToMaster(m)]) == Queued(s.rings[ToMaster(m)]) && MasterLeft(n, m) < MasterLeft(s, m)
  }

  lemma MasterBegins(s: System, m: nat)
    requires Inv(s) && MasterThere(s, m) && s.threads[Master(m)] == Idle && ToMaster(m) in s.rings
    ensures MasterNearer(s, BeginTake(s, Master(m), ToMaster(m)), m)
  {
    hide R.Inv;
    hide BeginTake;
    hide Queued;
    hide RingAside;
    BeginTakeAside(s, Master(m), ToMaster(m));
  }

  lemma MasterTakes(s: System, m: nat)
    requires Inv(s) && MasterThere(s, m) && s.threads[Master(m)] == Taking(ToMaster(m))
    requires R.Inv(s.rings[ToMaster(m)]) && Queued(s.rings[ToMaster(m)]) != []
    ensures MasterNearer(s, TakeStep(s, Master(m)).0, m)
  {
    hide R.Inv;
    hide TakeStep;
    hide Queued;
    hide RingAside;
    TakeAside(s, Master(m));
  }

  lemma MasterSends(s: System, m: nat)
    requires Inv(s) && MasterThere(s, m) && s.threads[Master(m)].Sending? && s.threads[Master(m)].to.ToWorker?
    requires ToMaster(m) in s.rings && R.Inv(s.rings[ToMaster(m)])
    ensures MasterNearer(s, SendOrFree(s, Master(m)).0, m)
  {
    hide R.Inv;
    hide SendOrFree;
    hide Queued;
    hide RingAside;
    SendLeft(s, Master(m));
    SendAside(s, Master(m));
  }

  /** What a master does with a buffer in its hand. */
  lemma MasterPasses(cfg: Config, s: System, m: nat, choice: nat)
    requires Inv(s) && Configured(cfg, s) && m < cfg.masters
    requires Master(m) in s.threads && s.threads[Master(m)].Holding? && ToMaster(m) in s.rings
    requires R.Inv(s.rings[ToMaster(m)])
    ensures MasterNearer(s, MasterNext(cfg, s, m, choice), m)
  {
    hide R.Inv;
    hide Queued;
    hide Inv;
    hide Configured;
    hide MasterNext;
    hide Aside;
    MasterSendsOff(cfg, s, m, choice);
  }

  lemma MasterSendsOff(cfg: Config, s: System, m: nat, choice: nat)
    requires Inv(s) && Configured(cfg, s) && m < cfg.masters
    requires Master(m) in s.threads && s.threads[Master(m)].Holding?
    ensures var n, b := MasterNext(cfg, s, m, choice), s.threads[Master(m)].b;
            && b < |s.address|
            && if s.address[b] in cfg.lookup then
                 && cfg.lookup[s.address[b]] in cfg.cores && cfg.cores[cfg.lookup[s.address[b]]] != []
                 && var p := cfg.lookup[s.address[b]];
                    var r := ToWorker(p, cfg.cores[p][choice % |cfg.cores[p]|], m);
                    && Master(m) in n.threads && n.threads[Master(m)] == Sending(b, r)
                    && r in n.rings && n.rings == s.rings[r := n.rings[r]] && P.ProducerLeft(n.rings[r].producer) == 5
               else
                 Master(m) in n.threads && n.threads[Master(m)] == Idle && n.rings == s.rings
  {
    hide R.Inv;
    hide Queued;
    hide BeginSend;
    hide Aside;
    var t, b := Master(m), s.threads[Master(m)].b;
    Shape(s);
    assert ThreadOk(s, t);
    hide Inv;
    if s.address[b] in cfg.lookup {
      var p := cfg.lookup[s.address[b]];
      var c := cfg.cores[p][choice % |cfg.cores[p]|];
      assert ToWorker(p, c, m) in s.rings;
      BooksKeep(s, CountPacket(s, t));
      BeginSendAside(CountPacket(s, t), t, ToWorker(p, c, m));
    }
  }

  lemma BeginTotals(s: System, t: Thread, r: RingId)
    requires Inv(s) && t in s.threads && r in s.rings
    ensures s.threads[t].Holding? && ProducerOf(r) == t ==> BeginSend(s, t, r).totPkt == s.totPkt
    ensures s.threads[t] == Idle && ConsumerOf(r) == t ==> BeginTake(s, t, r).totPkt == s.totPkt
  {
    hide R.Inv;
    hide R.Next;
    hide Queued;
    assert RingOk(s, r);
  }

  lemma CountedInv(s: System, t: Thread)
    requires Inv(s) && t in s.threads
    ensures t in s.totPkt && Inv(CountPacket(s, t))
  {
    hide R.Inv;
    hide Queued;
    Shape(s);
    BooksKeep(s, CountPacket(s, t));
  }

  lemma MasterCountsOne(cfg: Config, s: System, m: nat, choice: nat)
    requires Inv(s) && Configured(cfg, s) && m < cfg.masters
    requires Master(m) in s.threads && s.threads[Master(m)].Holding? && Master(m) in s.totPkt
    requires s.threads[Master(m)].b < |s.address| && s.address[s.threads[Master(m)].b] in cfg.lookup
    ensures MasterNext(cfg, s, m, choice).totPkt == s.totPkt[Master(m) := s.totPkt[Master(m)] + 1]
  {
    hide BeginSend;
    hide BeginTake;
    hide SendOrFree;
    hide TakeStep;
    hide Abandon;
    hide Inv;
    CountedInv(s, Master(m));
    var t, p := Master(m), cfg.lookup[s.address[s.threads[Master(m)].b]];
    var r := ToWorker(p, cfg.cores[p][choice % |cfg.cores[p]|], m);
    BeginTotals(CountPacket(s, t), t, r);
  }

  /** A master counts a packet exactly when it begins to pass it on, and for itself. */
  lemma MasterCounts(cfg: Config, s: System, m: nat, choice: nat)
    requires Inv(s) && Configured(cfg, s) && m < cfg.masters
    ensures Master(m) in s.threads && Master(m) in s.totPkt
    ensures var t, n := Master(m), MasterNext(cfg, s, m, choice);
            n.totPkt == if s.threads[t].Holding? && s.threads[t].b < |s.address| && s.address[s.threads[t].b] in cfg.lookup
                        then s.totPkt[t := s.totPkt[t] + 1] else s.totPkt
  {
    hide R.Inv;
    hide R.Next;
    hide Queued;
    hide SendOrFree;
    hide TakeStep;
    hide BeginSend;
    hide BeginTake;
    Shape(s);
    assert ThreadOk(s, Master(m));
    hide Inv;
    match s.threads[Master(m)]
    case Sending(_, _) => SendEffect(s, Master(m));
    case Taking(_) => TakeEffect(s, Master(m));
    case Idle => BeginTotals(s, Master(m), ToMaster(m));
    case Holding(b) => if s.address[b] in cfg.lookup { MasterCountsOne(cfg, s, m, choice); }
  }

  /** A buffer with `k` others before it in the ring of a master is in the master's hand within
      12 * (k + 1) turns of the master, whatever the other threads do. */
  lemma {:induction false} MasterGets(cfg: Config, s: System, m: nat, k: nat, schedule: seq<Action>) returns (i: nat)
    requires Inv(s) && Configured(cfg, s) && m < cfg.masters
    requires ToMaster(m) in s.rings && R.Inv(s.rings[ToMaster(m)]) && k < |Queued(s.rings[ToMaster(m)])|
    requires Turns(schedule, Master(m)) >= 12 * (k + 1)
    ensures i <= |schedule| && Turns(schedule[..i], Master(m)) <= 12 * (k + 1)
    ensures var n := After(cfg, s, schedule, i);
            Master(m) in n.threads && n.threads[Master(m)] == Holding(Queued(s.rings[ToMaster(m)])[k])
  {
    MasterAt(cfg, s, m);
    i := MasterGetsIt(cfg, s, m, k, schedule);
  }

  lemma {:induction false} MasterGetsIt(cfg: Config, s: System, m: nat, k: nat, schedule: seq<Action>) returns (i: nat)
    requires Inv(s) && Configured(cfg, s) && m < cfg.masters
    requires ToMaster(m) in s.rings && R.Inv(s.rings[ToMaster(m)]) && k < |Queued(s.rings[ToMaster(m)])|
    requires MasterThere(s, m) && Turns(schedule, Master(m)) >= 12 * k + MasterLeft(s, m)
    ensures i <= |schedule| && Turns(schedule[..i], Master(m)) <= 12 * k + MasterLeft(s, m)
    ensures var n := After(cfg, s, schedule, i);
            Master(m) in n.threads && n.threads[Master(m)] == Holding(Queued(s.rings[ToMaster(m)])[k])
    decreases |schedule|
  {
    hide Inv;
    hide Configured;
    hide Next;
    hide Run;
    hide R.Inv;
    hide Queued;
    MasterAt(cfg, s, m);
    var t, a, n, rest := Master(m), schedule[0], Next(cfg, s, schedule[0]), schedule[1..];
    AfterFirst(cfg, s, schedule, 0);
    AfterNothing(cfg, n, rest);
    var gets := MasterGetsFirst(cfg, s, m, a);
    MasterAt(cfg, n, m);
    if gets && k == 0 {
      i := 1;
      TurnsFirst(schedule, 0, t);
    } else {
      i := MasterGetsIt(cfg, n, m, if gets then k - 1 else k, rest);
      TurnsFirst(schedule, i, t);
      AfterFirst(cfg, s, schedule, i);
      i := i + 1;
    }
  }

  /** One turn of any thread: the master has the first buffer, or is not further from it. */
  lemma MasterGetsFirst(cfg: Config, s: System, m: nat, a: Action) returns (gets: bool)
    requires Inv(s) && Configured(cfg, s) && m < cfg.masters
    requires ToMaster(m) in s.rings && R.Inv(s.rings[ToMaster(m)]) && Queued(s.rings[ToMaster(m)]) != []
    ensures var n := Next(cfg, s, a);
            && Master(m) in n.threads && ToMaster(m) in n.rings && R.Inv(n.rings[ToMaster(m)])
            && (if gets then
                  && ThreadOf(a) == Master(m) && n.threads[Master(m)].Holding?
                  && Queued(s.rings[ToMaster(m)]) == [n.threads[Master(m)].b] + Queued(n.rings[ToMaster(m)])
                else
                  Queued(s.rings[ToMaster(m)]) <= Queued(n.rings[ToMaster(m)]))
    ensures MasterThere(s, m) && MasterThere(Next(cfg, s, a), m)
    ensures !gets ==> MasterLeft(Next(cfg, s, a), m) + (if ThreadOf(a) == Master(m) then 1 else 0) <= MasterLeft(s, m)
  {
    hide Inv;
    hide Configured;
    hide MasterNext;
    hide ReceiverNext;
    hide WorkerNext;
    hide R.Inv;
    hide Queued;
    var n, t := Next(cfg, s, a), Master(m);
    MasterAt(cfg, s, m);
    MasterAt(cfg, n, m);
    gets := ThreadOf(a) == t && s.threads[t].Taking? && n.threads[t].Holding?;
    if ThreadOf(a) == t {
      MasterTurns(cfg, s, m, a.choice);
    } else {
      OthersTurn(cfg, s, a, t);
      OthersEnd(s, t);
    }
  }

  /** A worker that polls a ring that holds something has its first buffer within five more turns. */
  lemma PollGets(cfg: Config, s: System, c: nat, p: nat, m: nat, schedule: seq<Action>) returns (i: nat)
    requires Inv(s) && Configured(cfg, s) && Worker(c) in s.threads && s.threads[Worker(c)] == Idle
    requires ToWorker(p, c, m) in s.rings && R.Inv(s.rings[ToWorker(p, c, m)]) && Queued(s.rings[ToWorker(p, c, m)]) != []
    requires Turns(schedule, Worker(c)) >= 5
    ensures var n := Next(cfg, s, WorkerTurn(c, p, m));
            && i < |schedule| && Turns(schedule[..i + 1], Worker(c)) <= 5
            && var y := After(cfg, n, schedule, i + 1);
               Worker(c) in y.threads && y.threads[Worker(c)] == Holding(Queued(s.rings[ToWorker(p, c, m)])[0])
  {
    hide Inv;
    hide Configured;
    hide Run;
    hide BeginTake;
    hide R.Inv;
    hide Queued;
    BeginTakeAside(s, Worker(c), ToWorker(p, c, m));
    i := TakeEnds(cfg, Next(cfg, s, WorkerTurn(c, p, m)), schedule, Worker(c));
  }

  /** A master that holds a buffer with a known address may send it to every core of the plugin. */
  lemma EveryCore(cfg: Config, s: System, m: nat, b: Buffer, k: nat)
    requires Inv(s) && Configured(cfg, s) && m < cfg.masters
    requires Master(m) in s.threads && s.threads[Master(m)] == Holding(b)
    requires b < |s.address| && s.address[b] in cfg.lookup
    requires var p := cfg.lookup[s.address[b]]; p in cfg.cores && k < |cfg.cores[p]|
    ensures var p := cfg.lookup[s.address[b]];
            MasterNext(cfg, s, m, k).threads[Master(m)] == Sending(b, ToWorker(p, cfg.cores[p][k], m))
  {
    hide R.Inv;
    hide Queued;
    hide Inv;
    hide Configured;
    hide MasterNext;
    hide Aside;
    MasterSendsOff(cfg, s, m, k);
  }
}
