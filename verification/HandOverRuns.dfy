/** Whole runs of receiver, masters and workers: who owns which buffer, where it went, and what the
    totals printed by the loops add up to. */
module HandOverRuns {
  import opened HandOver
  import opened HandOverCounts
  import opened HandOverBooks
  import opened HandOverRoutes
  import opened HandOverSenders
  import R = RingMachine
  import G = RingGeometry

  // ----- runs

  /** Nothing has been received yet: the receiver has its first buffer, every ring is empty. */
  ghost predicate Started(cfg: Config, s: System) {
    && Configured(cfg, s)
    && s.threads[Receiver] == Holding(0) && (forall t :: t in s.threads && t != Receiver ==> s.threads[t] == Idle)
    && s.place == [Hand(Receiver)] && |s.address| == 1 && s.freed == []
    && s.totPkt == (map t | t in s.threads :: 0) && s.totFree == (map t | t in s.threads :: 0)
    && forall r :: r in s.rings ==>
         && ProducerOf(r) in s.threads && ConsumerOf(r) in s.threads
         && EmptyRing(s.rings[r])
  }

  ghost predicate EmptyRing(m: R.Machine<Buffer>) {
    G.Sound(m.g) && |m.slots| == m.g.size && m == R.Created(m.g, m.slots)
  }

  /** Everything that is kept besides ownership. */
  ghost predicate Kept(cfg: Config, s: System) {
    Books(s) && Routes(cfg, s) && MasterBooks(cfg, s)
  }

  lemma StartedOk(cfg: Config, s: System)
    requires Started(cfg, s)
    ensures Inv(s) && Kept(cfg, s)
  {
    hide Kept;
    StartedInv(cfg, s);
    StartedKept(cfg, s);
  }

  lemma StartedInv(cfg: Config, s: System)
    requires Started(cfg, s)
    ensures Inv(s)
  {
    forall r | r in s.rings
      ensures RingOk(s, r)
    {
      R.CreatedInv(s.rings[r].g, s.rings[r].slots);
    }
  }

  lemma StartedKept(cfg: Config, s: System)
    requires Started(cfg, s)
    ensures Kept(cfg, s)
  {
    hide EmptyRing;
    assert s.place == [] + [Hand(Receiver)];
    forall t | t in s.totFree
      ensures s.totFree[t] == Count(s.place, FreedBy(t))
    {
      CountMore([], Hand(Receiver), FreedBy(t));
    }
    CountMore([], Hand(Receiver), SentOn);
    NothingSent(s, cfg.masters);
  }

  lemma {:induction false} NothingSent(s: System, k: nat)
    requires HasMasters(s, k)
    requires forall m: nat :: m < k ==> s.totPkt[Master(m)] == 0 && s.threads[Master(m)] == Idle
    ensures MastersTotal(s, k) == 0 && MastersSending(s, k) == 0
  {
    if k > 0 { NothingSent(s, k - 1); }
  }

  /** Any schedule: any thread may take its next step at any time. */
  ghost function Run(cfg: Config, s: System, schedule: seq<Action>): (n: System)
    requires Inv(s) && Configured(cfg, s)
    ensures Inv(n) && Configured(cfg, n)
    decreases |schedule|
  {
    if schedule == [] then s else Run(cfg, Next(cfg, s, schedule[0]), schedule[1..])
  }

  lemma NextKeeps(cfg: Config, s: System, a: Action)
    requires Inv(s) && Configured(cfg, s) && Kept(cfg, s)
    ensures var n := Next(cfg, s, a); Kept(cfg, n) && Settled(s, n) && s.freed <= n.freed
  {
    hide Inv;
    hide Configured;
    hide ReceiverNext;
    hide MasterNext;
    hide WorkerNext;
    hide Books;
    hide Routes;
    hide MasterBooks;
    hide Settled;
    match a
    case ReceiverTurn(choice, from) =>
      ReceiverKeepsBooks(cfg, s, choice, from);
      ReceiverRoutes(cfg, s, choice, from);
      ReceiverMasterBooks(cfg, s, choice, from);
    case MasterTurn(m, choice) =>
      MasterKeepsBooks(cfg, s, m, choice);
      MasterRoutes(cfg, s, m, choice);
      MasterMasterBooks(cfg, s, m, choice);
    case WorkerTurn(c, p, m) =>
      WorkerKeepsBooks(s, c, p, m);
      WorkerRoutes(cfg, s, c, p, m);
      WorkerMasterBooks(cfg, s, c, p, m);
  }

  lemma {:induction false} RunKeeps(cfg: Config, s: System, schedule: seq<Action>)
    requires Inv(s) && Configured(cfg, s) && Kept(cfg, s)
    ensures Kept(cfg, Run(cfg, s, schedule))
    ensures Settled(s, Run(cfg, s, schedule)) && s.freed <= Run(cfg, s, schedule).freed
    decreases |schedule|
  {
    hide Inv;
    hide Configured;
    hide Next;
    if schedule == [] {
      Unmoved(cfg, s);
    } else {
      hide Kept;
      hide Settled;
      var n := Next(cfg, s, schedule[0]);
      NextKeeps(cfg, s, schedule[0]);
      RunKeeps(cfg, n, schedule[1..]);
      SettledOn(s, n, Run(cfg, n, schedule[1..]));
    }
  }

  lemma SettledOn(s: System, n: System, k: System)
    requires Settled(s, n) && Settled(n, k)
    ensures Settled(s, k)
  {
  }

  // ----- the two results

  function Inside(r: RingId): Place -> bool {
    (p: Place) => p == InRing(r)
  }

  /** The buffer is at place `p`, which is a thread or a ring of the system, and nowhere else. */
  ghost predicate OnlyIn(s: System, b: Buffer, p: Place)
    requires Inv(s)
  {
    && (p.Hand? ==> p.t in s.threads) && (p.InRing? ==> p.r in s.rings)
    && (forall t :: t in s.threads ==> (InHand(s.threads[t], b) <==> p == Hand(t)))
    && (forall r :: r in s.rings ==> R.Inv(s.rings[r]) && (b in Queued(s.rings[r]) <==> p == InRing(r)))
    && (b in s.freed <==> p.Freed?)
  }

  /** The masters have disposed of a buffer: passed it on, freed it, or set it aside. */
  predicate Disposed(p: Place) {
    SentOn(p) || p == SetAside
  }

  /** Ownership over whole runs: at every moment, each buffer allocated so far is in exactly one
      place: one thread's hand, one ring, the freed ones, or set aside.  No ring holds a buffer
      twice, and none is freed twice; what has been freed stays freed. */
  lemma Ownership(cfg: Config, start: System, before: seq<Action>, after: seq<Action>, b: Buffer)
    requires Started(cfg, start)
    ensures Inv(start)
    ensures var s := Run(cfg, start, before);
            && (b < |s.place| ==> OnlyIn(s, b, s.place[b]))
            && (forall r :: r in s.rings ==> NoDuplicates(Queued(s.rings[r])))
            && NoDuplicates(s.freed)
            && s.freed <= Run(cfg, s, after).freed
    ensures Settled(Run(cfg, start, before), Run(cfg, Run(cfg, start, before), after))
  {
    hide R.Inv;
    hide Queued;
    hide Books;
    hide MasterBooks;
    hide Settled;
    StartedOk(cfg, start);
    var s := Run(cfg, start, before);
    RunKeeps(cfg, start, before);
    RunKeeps(cfg, s, after);
    if b < |s.place| { PlaceIsOnly(s, b); }
    OnceOnly(s);
  }

  /** Buffer number `b`, once it has left the receiver, carries the address of sender number `b`, now
      and at the later moment `n`.  On its way to a worker and with one it is at a core of the plugin
      that has that address; of the buffers that the masters have disposed of, exactly those are set
      aside whose sender no plugin has. */
  ghost predicate Routed(cfg: Config, s: System, n: System, senders: seq<Address>, b: Buffer) {
    && Receiver in s.threads
    && (b < |s.place| ==> (b < |senders| <==> s.place[b] != Hand(Receiver) || s.threads[Receiver].Sending?))
    && (b < |senders| ==>
          && b < |s.place| && b < |s.address| && b < |n.address| && s.address[b] == n.address[b] == senders[b]
          && RouteFor(cfg, s, s.place[b], senders[b])
          && (Disposed(s.place[b]) ==> (s.place[b] == SetAside <==> senders[b] !in cfg.lookup)))
  }

  /** Routing over whole runs, by the senders of the packets in the order in which the receiver got
      them; and the receiver has counted them, but for one that it may be sending. */
  lemma Routing(cfg: Config, start: System, before: seq<Action>, after: seq<Action>, b: Buffer)
    requires Started(cfg, start)
    ensures Inv(start)
    ensures var s, n, senders := Run(cfg, start, before), Run(cfg, start, before + after), Senders(cfg, start, before);
            && senders <= Senders(cfg, start, before + after)
            && Routed(cfg, s, n, senders, b)
            && Receiver in s.totPkt
            && s.totPkt[Receiver] == |senders| - (if s.threads[Receiver].Sending? then 1 else 0)
  {
    StartedOk(cfg, start);
    StartedRecords(cfg, start);
    hide Started;
    hide Inv;
    hide Configured;
    hide SenderBooks;
    hide Routed;
    hide Routes;
    hide FreeBooks;
    hide MasterBooks;
    hide Settled;
    var s, senders := Run(cfg, start, before), Senders(cfg, start, before);
    var n, later := Run(cfg, start, before + after), Senders(cfg, start, before + after);
    RunKeeps(cfg, start, before);
    RunRecords(cfg, start, before, []);
    RunRecords(cfg, start, before + after, []);
    SendersConcat(cfg, start, before, after);
    assert [] + senders == senders && [] + later == later;
    RoutedNow(cfg, s, n, senders, later, b);
    ReceiversTotal(s, senders);
  }

  lemma StartedRecords(cfg: Config, s: System)
    requires Started(cfg, s)
    ensures SenderBooks(s, [])
  {
  }

  lemma ReceiversTotal(s: System, senders: seq<Address>)
    requires ReceiverBooks(s) && SenderBooks(s, senders)
    ensures s.totPkt[Receiver] == |senders| - (if s.threads[Receiver].Sending? then 1 else 0)
  {
  }

  lemma RoutedNow(cfg: Config, s: System, n: System, senders: seq<Address>, later: seq<Address>, b: Buffer)
    requires Inv(s) && Routes(cfg, s) && SenderBooks(s, senders) && SenderBooks(n, later) && senders <= later
    ensures Routed(cfg, s, n, senders, b)
  {
    ReceiversBuffer(s, senders, b);
    hide Inv;
    if b < |senders| {
      RouteAt(cfg, s, b);
      assert s.address[b] == s.address[..|senders|][b];
      assert n.address[b] == n.address[..|later|][b];
    }
  }

  lemma ReceiversBuffer(s: System, senders: seq<Address>, b: Buffer)
    requires Inv(s) && SenderBooks(s, senders)
    ensures b < |s.place| ==> (b < |senders| <==> s.place[b] != Hand(Receiver) || s.threads[Receiver].Sending?)
  {
    hide R.Inv;
    hide Queued;
    hide RingOk;
    assert ThreadOk(s, Receiver);
    if b < |s.place| { assert PlaceOk(s, b); }
  }

  lemma {:induction false} RunRecords(cfg: Config, s: System, schedule: seq<Action>, senders: seq<Address>)
    requires Inv(s) && Configured(cfg, s) && SenderBooks(s, senders)
    ensures SenderBooks(Run(cfg, s, schedule), senders + Senders(cfg, s, schedule))
    decreases |schedule|
  {
    hide Inv;
    hide Configured;
    hide Next;
    hide SenderBooks;
    if schedule == [] {
      assert senders + [] == senders;
    } else {
      var a := schedule[0];
      NextRecords(cfg, s, a, senders);
      RunRecords(cfg, Next(cfg, s, a), schedule[1..], senders + Received(s, a));
      assert senders + Received(s, a) + Senders(cfg, Next(cfg, s, a), schedule[1..])
          == senders + Senders(cfg, s, schedule);
    }
  }

  lemma {:induction false} SendersConcat(cfg: Config, s: System, a: seq<Action>, b: seq<Action>)
    requires Inv(s) && Configured(cfg, s)
    ensures Senders(cfg, s, a) <= Senders(cfg, s, a + b)
    decreases |a|
  {
    hide Inv;
    hide Configured;
    hide Next;
    if a != [] {
      assert (a + b)[0] == a[0] && (a + b)[1..] == a[1..] + b;
      SendersConcat(cfg, Next(cfg, s, a[0]), a[1..], b);
    }
  }

  lemma OnceOnly(s: System)
    requires Inv(s)
    ensures forall r :: r in s.rings ==> R.Inv(s.rings[r]) && NoDuplicates(Queued(s.rings[r]))
    ensures NoDuplicates(s.freed)
  {
    hide R.Inv;
    hide Queued;
    forall r | r in s.rings
      ensures R.Inv(s.rings[r]) && NoDuplicates(Queued(s.rings[r]))
    {
      assert RingOk(s, r);
    }
  }

  lemma PlaceIsOnly(s: System, b: Buffer)
    requires Inv(s) && b < |s.place|
    ensures OnlyIn(s, b, s.place[b])
  {
    hide R.Inv;
    hide Queued;
    assert PlaceOk(s, b);
    forall t | t in s.threads
      ensures InHand(s.threads[t], b) <==> s.place[b] == Hand(t)
    {
      assert ThreadOk(s, t);
    }
    forall r | r in s.rings
      ensures R.Inv(s.rings[r])
      ensures b in Queued(s.rings[r]) <==> s.place[b] == InRing(r)
    {
      assert RingOk(s, r);
    }
  }

  /** Conservation: every packet the receiver has counted is in a ring or a hand behind it, or
      freed, or set aside; the packets the masters have counted are those sent on, or being sent;
      each ring holds as many as its length says, and the free totals of the receiver and the
      masters are the buffers they have freed. */
  lemma Conservation(cfg: Config, start: System, schedule: seq<Action>)
    requires Started(cfg, start)
    ensures Inv(start)
    ensures var s := Run(cfg, start, schedule);
            && Receiver in s.totPkt
            && s.totPkt[Receiver] == Count(s.place, InMasterRing) + Count(s.place, WithMaster)
                                   + Count(s.place, InWorkerRing) + Count(s.place, WithWorker)
                                   + |s.freed| + Count(s.place, IsSetAside)
            && (forall r :: r in s.rings ==>
                  R.Inv(s.rings[r]) && Count(s.place, Inside(r)) == |Queued(s.rings[r])|)
            && (forall t :: t in s.totFree && !t.Worker? ==> s.totFree[t] == Count(s.place, FreedBy(t)))
            && HasMasters(s, cfg.masters)
            && MastersTotal(s, cfg.masters) == Count(s.place, SentOn) + MastersSending(s, cfg.masters)
  {
    hide R.Inv;
    hide Queued;
    hide Routes;
    StartedOk(cfg, start);
    var s := Run(cfg, start, schedule);
    RunKeeps(cfg, start, schedule);
    CountsAddUp(s.place);
    FreedLength(s);
    ReceiverHasOne(s);
    hide Inv;
    forall r | r in s.rings
      ensures R.Inv(s.rings[r]) && Count(s.place, Inside(r)) == |Queued(s.rings[r])|
    {
      RingLength(s, r);
    }
  }

  lemma RingLength(s: System, r: RingId)
    requires Inv(s) && r in s.rings
    ensures R.Inv(s.rings[r]) && Count(s.place, Inside(r)) == |Queued(s.rings[r])|
  {
    hide R.Inv;
    hide Queued;
    assert RingOk(s, r);
    CountIsLength(s.place, Inside(r), Queued(s.rings[r]));
  }

  lemma FreedLength(s: System)
    requires Inv(s)
    ensures Count(s.place, IsFreed) == |s.freed|
  {
    CountIsLength(s.place, IsFreed, s.freed);
  }

  lemma ReceiverHasOne(s: System)
    requires Inv(s) && ReceiverBooks(s)
    ensures Count(s.place, WithReceiver) == 1
  {
    hide R.Inv;
    hide Queued;
    hide RingOk;
    var b := s.threads[Receiver].b;
    assert ThreadOk(s, Receiver);
    forall c: Buffer | c < |s.place| && WithReceiver(s.place[c])
      ensures c == b
    {
      assert PlaceOk(s, c);
    }
    CountIsLength(s.place, WithReceiver, [b]);
  }
}
