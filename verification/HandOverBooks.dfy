/** What each step of receiver, masters and workers keeps besides ownership: the totals they print,
    and the way a buffer takes, which is the one of its address. */
module HandOverBooks {
  import opened HandOver
  import opened HandOverCounts
  import R = RingMachine

  // ----- what one step of a ring operation does

  /** One step of sending: nothing to be seen, or the ring takes the buffer at its end, or it is
      full, and the sender frees the buffer and counts it. */
  ghost predicate Sent(s: System, n: System, over: bool, t: Thread, b: Buffer, r: RingId) {
    && t in s.threads && t in s.totFree && b < |s.place| && s.place[b] == Hand(t)
    && r in s.rings && r in n.rings && R.Inv(s.rings[r]) && R.Inv(n.rings[r])
    && n.threads == (if over then s.threads[t := Idle] else s.threads)
    && n.rings == s.rings[r := n.rings[r]]
    && n.totPkt == s.totPkt && n.address == s.address
    && ( || (!over && n.place == s.place && n.freed == s.freed && n.totFree == s.totFree
                   && Queued(n.rings[r]) == Queued(s.rings[r]))
         || (over && n.place == s.place[b := InRing(r)] && n.freed == s.freed && n.totFree == s.totFree
                  && Queued(n.rings[r]) == Queued(s.rings[r]) + [b])
         || (over && n.place == s.place[b := Freed(t)] && n.freed == s.freed + [b]
                  && n.totFree == s.totFree[t := s.totFree[t] + 1]
                  && Queued(n.rings[r]) == Queued(s.rings[r]) && |Queued(s.rings[r])| == s.rings[r].g.capacity))
  }

  lemma SendEffect(s: System, t: Thread)
    requires Inv(s) && t in s.threads && s.threads[t].Sending?
    ensures var (n, over) := SendOrFree(s, t);
            Sent(s, n, over, t, s.threads[t].b, s.threads[t].to)
  {
    hide R.Inv;
    hide R.Next;
    hide Queued;
    hide PlaceOk;
    hide FreedOk;
    hide RingOk;
    Shape(s);
    assert RingOk(s, s.threads[t].to) && ThreadOk(s, t);
    SendingTo(s, t);
    SendOne(s.rings[s.threads[t].to], s.threads[t].b);
  }

  lemma SendingTo(s: System, t: Thread)
    requires Inv(s) && t in s.threads && s.threads[t].Sending?
    requires s.threads[t].to in s.rings && ProducerOf(s.threads[t].to) == t && RingOk(s, s.threads[t].to)
    ensures R.Inv(s.rings[s.threads[t].to]) && IsSending(s.rings[s.threads[t].to].producer, s.threads[t].b)
  {
  }

  /** One step of taking: the thread gets the first buffer of the ring, or the place of no buffer
      changes. */
  ghost predicate TakenBy(s: System, n: System, t: Thread, r: RingId) {
    && t in s.threads && r in s.rings && r in n.rings && R.Inv(s.rings[r]) && R.Inv(n.rings[r])
    && t in n.threads && n.threads == s.threads[t := n.threads[t]] && n.rings == s.rings[r := n.rings[r]]
    && n.totPkt == s.totPkt && n.totFree == s.totFree && n.address == s.address && n.freed == s.freed
    && (if n.threads[t].Holding? then
          var b := n.threads[t].b;
          && b < |s.place| && s.place[b] == InRing(r) && n.place == s.place[b := Hand(t)]
          && Queued(s.rings[r]) == [b] + Queued(n.rings[r])
        else
          && n.threads[t] in {Taking(r), Idle} && n.place == s.place
          && Queued(n.rings[r]) == Queued(s.rings[r]) && (n.threads[t] == Idle ==> Queued(s.rings[r]) == []))
  }

  lemma TakeEffect(s: System, t: Thread)
    requires Inv(s) && t in s.threads && s.threads[t].Taking?
    ensures TakenBy(s, TakeStep(s, t).0, t, s.threads[t].from)
  {
    hide R.Inv;
    hide R.Next;
    hide Queued;
    hide PlaceOk;
    hide FreedOk;
    hide RingOk;
    TakingAt(s, t);
    var r := s.threads[t].from;
    TakenFrom(s, r);
    TakeOne(s.rings[r]);
    var e := R.Next(s.rings[r], R.ConsumerStep).1;
    if e.Dequeued? { assert e.objs == [e.objs[0]]; }
  }

  // ----- frees

  /** Who frees a buffer that a ring refuses has counted it. */
  ghost predicate FreeBooks(s: System) {
    forall t :: t in s.totFree && !t.Worker? ==> s.totFree[t] == Count(s.place, FreedBy(t))
  }

  /** The receiver has counted every buffer but the one in its hand. */
  ghost predicate ReceiverBooks(s: System) {
    && Receiver in s.threads && (s.threads[Receiver].Holding? || s.threads[Receiver].Sending?)
    && Receiver in s.totPkt && s.totPkt[Receiver] + 1 == |s.place|
  }

  lemma SameBooks(s: System, n: System)
    requires FreeBooks(s) && n.place == s.place && n.totFree == s.totFree
    ensures FreeBooks(n)
  {
  }

  /** A new buffer is not freed. */
  lemma NewBooks(s: System, n: System, p: Place)
    requires FreeBooks(s) && n.place == s.place + [p] && n.totFree == s.totFree && !p.Freed?
    ensures FreeBooks(n)
  {
    forall t | t in n.totFree && !t.Worker?
      ensures n.totFree[t] == Count(n.place, FreedBy(t))
    {
      CountMore(s.place, p, FreedBy(t));
    }
  }

  lemma MoveBooks(s: System, n: System, b: Buffer, p: Place)
    requires FreeBooks(s) && b < |s.place| && !s.place[b].Freed? && !p.Freed?
    requires n.place == s.place[b := p] && n.totFree == s.totFree
    ensures FreeBooks(n)
  {
    forall t | t in n.totFree && !t.Worker?
      ensures n.totFree[t] == Count(n.place, FreedBy(t))
    {
      CountMove(s.place, b, p, FreedBy(t));
    }
  }

  lemma FreedBooks(s: System, n: System, b: Buffer, who: Thread)
    requires FreeBooks(s) && b < |s.place| && !s.place[b].Freed? && who in s.totFree
    requires n.place == s.place[b := Freed(who)]
    requires n.totFree == if who.Worker? then s.totFree else s.totFree[who := s.totFree[who] + 1]
    ensures FreeBooks(n)
  {
    forall t | t in n.totFree && !t.Worker?
      ensures n.totFree[t] == Count(n.place, FreedBy(t))
    {
      CountMove(s.place, b, Freed(who), FreedBy(t));
    }
  }

  /** What a step of a thread other than the receiver leaves to the receiver. */
  predicate OtherThreads(s: System, n: System, t: Thread) {
    && t in s.threads && n.threads.Keys == s.threads.Keys
    && n.threads == s.threads[t := n.threads[t]]
    && |n.place| == |s.place|
    && n.totPkt.Keys == s.totPkt.Keys
    && (t != Receiver && Receiver in s.totPkt ==> n.totPkt[Receiver] == s.totPkt[Receiver])
  }

  lemma SendBooks(s: System, t: Thread)
    requires Inv(s) && t in s.threads && s.threads[t].Sending? && !t.Worker? && FreeBooks(s)
    ensures var (n, over) := SendOrFree(s, t);
            && FreeBooks(n) && OtherThreads(s, n, t) && n.totPkt == s.totPkt
            && s.freed <= n.freed
            && n.threads[t] == (if over then Idle else s.threads[t])
  {
    hide SendOrFree;
    hide Inv;
    hide FreeBooks;
    SendEffect(s, t);
    var (n, over) := SendOrFree(s, t);
    var b := s.threads[t].b;
    if n.place == s.place[b := Freed(t)] && n.totFree != s.totFree {
      FreedBooks(s, n, b, t);
    } else {
      MoveBooks(s, n, b, n.place[b]);
    }
  }

  lemma TakeBooks(s: System, t: Thread)
    requires Inv(s) && t in s.threads && s.threads[t].Taking? && FreeBooks(s)
    ensures var n := TakeStep(s, t).0;
            FreeBooks(n) && OtherThreads(s, n, t) && n.totPkt == s.totPkt && n.freed == s.freed
  {
    hide Inv;
    hide TakeStep;
    hide FreeBooks;
    TakeEffect(s, t);
    var n := TakeStep(s, t).0;
    if n.threads[t].Holding? {
      MoveBooks(s, n, n.threads[t].b, Hand(t));
    } else {
      SameBooks(s, n);
    }
  }

  /** Everything that is kept about totals and frees. */
  ghost predicate Books(s: System) {
    FreeBooks(s) && ReceiverBooks(s)
  }

  lemma ReceiverKeepsBooks(cfg: Config, s: System, choice: nat, from: Address)
    requires Inv(s) && Configured(cfg, s) && Books(s)
    ensures var n := ReceiverNext(cfg, s, choice, from); Books(n) && s.freed <= n.freed
  {
    hide R.Inv;
    hide R.Next;
    hide Inv;
    hide SendOrFree;
    hide FreeBooks;
    Shape(s);
    var n := ReceiverNext(cfg, s, choice, from);
    if s.threads[Receiver].Holding? {
      SameBooks(s, n);
    } else {
      SendBooks(s, Receiver);
      var (r, over) := SendOrFree(s, Receiver);
      if over {
        NewBooks(r, n, Hand(Receiver));
      }
    }
  }

  lemma MasterKeepsBooks(cfg: Config, s: System, m: nat, choice: nat)
    requires Inv(s) && Configured(cfg, s) && Books(s)
    ensures var n := MasterNext(cfg, s, m, choice); Books(n) && s.freed <= n.freed
  {
    hide R.Inv;
    hide R.Next;
    hide Inv;
    hide SendOrFree;
    hide TakeStep;
    hide FreeBooks;
    Shape(s);
    var n := MasterNext(cfg, s, m, choice);
    var t := Master(m);
    if m < cfg.masters {
      match s.threads[t]
      case Taking(_) => TakeBooks(s, t);
      case Sending(_, _) => SendBooks(s, t);
      case Idle => SameBooks(s, n);
      case Holding(b) =>
        if s.address[b] !in cfg.lookup {
          MoveBooks(s, n, b, SetAside);
        } else {
          SameBooks(s, n);
        }
    }
  }

  lemma WorkerKeepsBooks(s: System, c: nat, p: nat, m: nat)
    requires Inv(s) && Books(s)
    ensures var n := WorkerNext(s, c, p, m); Books(n) && s.freed <= n.freed
  {
    hide R.Inv;
    hide R.Next;
    hide Inv;
    hide TakeStep;
    hide FreeBooks;
    Shape(s);
    var n := WorkerNext(s, c, p, m);
    var t := Worker(c);
    if t in s.threads {
      match s.threads[t]
      case Taking(_) => TakeBooks(s, t);
      case Sending(_, _) =>
      case Idle => SameBooks(s, n);
      case Holding(b) => FreedBooks(s, n, b, t);
    }
  }
}
