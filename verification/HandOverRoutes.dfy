/** Where the masters send a buffer: to a core of the plugin that has its address, and nowhere if no
    plugin has it. */
module HandOverRoutes {
  import opened HandOver
  import opened HandOverCounts
  import opened HandOverBooks

  /** The core is one of the plugin that has the address. */
  predicate Fits(cfg: Config, a: Address, p: nat, c: nat) {
    a in cfg.lookup && cfg.lookup[a] == p && p in cfg.cores && c in cfg.cores[p]
  }

  predicate Serves(cfg: Config, a: Address, c: nat) {
    a in cfg.lookup && Fits(cfg, a, cfg.lookup[a], c)
  }

  /** What the place of a buffer says about its address. */
  predicate RouteOk(cfg: Config, s: System, b: Buffer)
    requires b < |s.place| && b < |s.address|
  {
    RouteFor(cfg, s, s.place[b], s.address[b])
  }

  /** Where a buffer with the address `a` may be. */
  predicate RouteFor(cfg: Config, s: System, place: Place, a: Address) {
    match place
    case Hand(Receiver) => true
    case Hand(Master(m)) =>
      Master(m) in s.threads
      && (s.threads[Master(m)].Sending? ==>
            var r := s.threads[Master(m)].to; r.ToWorker? && Fits(cfg, a, r.plugin, r.core))
    case Hand(Worker(c)) => Serves(cfg, a, c)
    case InRing(ToMaster(_)) => true
    case InRing(ToWorker(p, c, _)) => Fits(cfg, a, p, c)
    case Freed(Receiver) => true
    case Freed(Master(_)) => a in cfg.lookup
    case Freed(Worker(c)) => Serves(cfg, a, c)
    case SetAside => a !in cfg.lookup
  }

  ghost predicate Routes(cfg: Config, s: System) {
    |s.address| == |s.place| && forall b: Buffer :: b < |s.place| ==> RouteOk(cfg, s, b)
  }

  /** A buffer that has left the receiver does not come back and keeps its address, and what is
      freed or set aside stays so. */
  ghost predicate Settled(s: System, n: System) {
    && |s.address| == |s.place| <= |n.place| == |n.address|
    && forall b: Buffer :: b < |s.place| && s.place[b] != Hand(Receiver) ==>
         && n.place[b] != Hand(Receiver) && n.address[b] == s.address[b]
         && (s.place[b].Freed? || s.place[b].SetAside? ==> n.place[b] == s.place[b])
  }

  /** A step of thread `t` with buffer `b`, or with none of those there are. */
  ghost predicate Moved(s: System, n: System, t: Thread, b: Buffer) {
    && |s.address| == |s.place| <= |n.place| == |n.address|
    && t in n.threads && n.threads == s.threads[t := n.threads[t]]
    && (forall c: Buffer :: c < |s.place| && c != b ==> n.place[c] == s.place[c] && n.address[c] == s.address[c])
    && (forall c: Buffer :: c < |s.place| && c != b ==> s.place[c] != Hand(t))
    && (forall c: Buffer :: |s.place| <= c < |n.place| ==> n.place[c] == Hand(Receiver))
  }

  lemma MovedRoutes(cfg: Config, s: System, n: System, t: Thread, b: Buffer)
    requires Routes(cfg, s) && Moved(s, n, t, b)
    requires b < |s.place| ==> RouteOk(cfg, n, b)
    requires b < |s.place| && s.place[b] != Hand(Receiver) ==>
               n.place[b] != Hand(Receiver) && n.address[b] == s.address[b] && !s.place[b].Freed? && !s.place[b].SetAside?
    ensures Routes(cfg, n) && Settled(s, n)
  {
    forall c: Buffer | c < |n.place|
      ensures RouteOk(cfg, n, c)
    {
      if c < |s.place| { assert RouteOk(cfg, s, c); }
    }
  }

  lemma Hands(s: System, t: Thread)
    requires Inv(s) && t in s.threads
    ensures ThreadOk(s, t) && |s.address| == |s.place|
    ensures forall c: Buffer :: c < |s.place| && s.place[c] == Hand(t) ==> InHand(s.threads[t], c)
  {
    hide RingOk;
    forall c: Buffer | c < |s.place| && s.place[c] == Hand(t)
      ensures InHand(s.threads[t], c)
    {
      assert PlaceOk(s, c);
    }
  }

  lemma ReceiverRoutes(cfg: Config, s: System, choice: nat, from: Address)
    requires Inv(s) && Configured(cfg, s) && Books(s) && Routes(cfg, s)
    ensures var n := ReceiverNext(cfg, s, choice, from); Routes(cfg, n) && Settled(s, n)
  {
    hide Inv;
    hide SendOrFree;
    hide FreeBooks;
    hide Routes;
    hide Settled;
    Hands(s, Receiver);
    Shape(s);
    var n, b := ReceiverNext(cfg, s, choice, from), s.threads[Receiver].b;
    if s.threads[Receiver].Sending? {
      SendEffect(s, Receiver);
      var (r, over) := SendOrFree(s, Receiver);
      assert n.place[b] == r.place[b] && n.address[b] == r.address[b];
      assert RouteOk(cfg, n, b);
    }
    MovedRoutes(cfg, s, n, Receiver, b);
  }

  lemma TakeRoutes(cfg: Config, s: System, t: Thread)
    requires Inv(s) && t in s.threads && s.threads[t].Taking? && t != Receiver && Routes(cfg, s)
    ensures var n := TakeStep(s, t).0; Routes(cfg, n) && Settled(s, n)
  {
    hide Inv;
    hide TakeStep;
    Hands(s, t);
    TakeEffect(s, t);
    var n := TakeStep(s, t).0;
    if n.threads[t].Holding? {
      assert RouteOk(cfg, s, n.threads[t].b);
      MovedRoutes(cfg, s, n, t, n.threads[t].b);
    } else {
      MovedRoutes(cfg, s, n, t, |s.place|);
    }
  }

  /** The master sends a buffer to a core of the plugin that has its address, and sets it aside if
      there is none. */
  lemma MasterRoutes(cfg: Config, s: System, m: nat, choice: nat)
    requires Inv(s) && Configured(cfg, s) && Routes(cfg, s)
    ensures var n := MasterNext(cfg, s, m, choice); Routes(cfg, n) && Settled(s, n)
    ensures var t, n := Master(m), MasterNext(cfg, s, m, choice);
            m < cfg.masters && s.threads[t].Holding? ==>
              var b := s.threads[t].b;
              && b < |s.place| == |s.address|
              && (n.place[b] == SetAside <==> s.address[b] !in cfg.lookup)
              && (if s.address[b] in cfg.lookup then
                    n.threads[t].Sending? && n.threads[t].b == b && n.threads[t].to.ToWorker?
                    && n.threads[t].to.master == m && Fits(cfg, s.address[b], n.threads[t].to.plugin, n.threads[t].to.core)
                  else n.threads[t] == Idle)
  {
    hide Inv;
    hide SendOrFree;
    hide TakeStep;
    hide Routes;
    hide Settled;
    Shape(s);
    var n := MasterNext(cfg, s, m, choice);
    var t := Master(m);
    if m < cfg.masters {
      Hands(s, t);
      match s.threads[t]
      case Taking(_) => TakeRoutes(cfg, s, t);
      case Sending(b, _) =>
        SendEffect(s, t);
        RouteAt(cfg, s, b);
        MovedRoutes(cfg, s, n, t, b);
      case Idle => MovedRoutes(cfg, s, n, t, |s.place|);
      case Holding(b) => MovedRoutes(cfg, s, n, t, b);
    } else {
      Unmoved(cfg, s);
    }
  }

  lemma RouteAt(cfg: Config, s: System, b: Buffer)
    requires Routes(cfg, s) && b < |s.place|
    ensures |s.address| == |s.place| && RouteOk(cfg, s, b)
  {
  }

  lemma Unmoved(cfg: Config, s: System)
    requires Routes(cfg, s)
    ensures Settled(s, s)
  {
  }

  lemma WorkerRoutes(cfg: Config, s: System, c: nat, p: nat, m: nat)
    requires Inv(s) && Routes(cfg, s)
    ensures var n := WorkerNext(s, c, p, m); Routes(cfg, n) && Settled(s, n)
  {
    hide Inv;
    hide TakeStep;
    hide Routes;
    hide Settled;
    Shape(s);
    var n := WorkerNext(s, c, p, m);
    var t := Worker(c);
    Unmoved(cfg, s);
    if t in s.threads {
      Hands(s, t);
      match s.threads[t]
      case Taking(_) => TakeRoutes(cfg, s, t);
      case Sending(_, _) =>
      case Idle => if ToWorker(p, c, m) in s.rings { MovedRoutes(cfg, s, n, t, |s.place|); }
      case Holding(b) =>
        RouteAt(cfg, s, b);
        MovedRoutes(cfg, s, n, t, b);
    }
  }

  // ----- the masters' totals

  /** A master has sent it on: to a worker, or in vain. */
  predicate SentOn(p: Place) {
    || (p.InRing? && p.r.ToWorker?)
    || (p.Hand? && p.t.Worker?)
    || (p.Freed? && !p.who.Receiver?)
  }

  ghost predicate HasMasters(s: System, k: nat) {
    forall m: nat :: m < k ==> Master(m) in s.threads && Master(m) in s.totPkt
  }

  /** tot_pkt_cnt of the first `k` masters together. */
  function MastersTotal(s: System, k: nat): nat
    requires HasMasters(s, k)
  {
    if k == 0 then 0 else MastersTotal(s, k - 1) + s.totPkt[Master(k - 1)]
  }

  /** How many of them are sending. */
  function MastersSending(s: System, k: nat): nat
    requires HasMasters(s, k)
  {
    if k == 0 then 0 else MastersSending(s, k - 1) + if s.threads[Master(k - 1)].Sending? then 1 else 0
  }

  /** What the masters have counted is what they have sent on or are sending. */
  ghost predicate MasterBooks(cfg: Config, s: System) {
    && HasMasters(s, cfg.masters)
    && MastersTotal(s, cfg.masters) == Count(s.place, SentOn) + MastersSending(s, cfg.masters)
  }

  lemma MastersThere(cfg: Config, s: System)
    requires MasterBooks(cfg, s)
    ensures HasMasters(s, cfg.masters)
  {
  }

  lemma {:induction false} MastersSame(s: System, n: System, k: nat)
    requires HasMasters(s, k) && HasMasters(n, k)
    requires forall m: nat :: m < k ==>
               n.totPkt[Master(m)] == s.totPkt[Master(m)]
               && (n.threads[Master(m)].Sending? <==> s.threads[Master(m)].Sending?)
    ensures MastersTotal(n, k) == MastersTotal(s, k) && MastersSending(n, k) == MastersSending(s, k)
  {
    if k > 0 { MastersSame(s, n, k - 1); }
  }

  /** One master's part of the sums. */
  lemma {:induction false} MastersChange(s: System, n: System, k: nat, m: nat)
    requires HasMasters(s, k) && HasMasters(n, k) && m < k
    requires forall i: nat :: i < k && i != m ==>
               n.totPkt[Master(i)] == s.totPkt[Master(i)]
               && (n.threads[Master(i)].Sending? <==> s.threads[Master(i)].Sending?)
    ensures MastersTotal(n, k) - n.totPkt[Master(m)] == MastersTotal(s, k) - s.totPkt[Master(m)]
    ensures MastersSending(n, k) - (if n.threads[Master(m)].Sending? then 1 else 0)
         == MastersSending(s, k) - if s.threads[Master(m)].Sending? then 1 else 0
  {
    if m == k - 1 { MastersSame(s, n, k - 1); } else { MastersChange(s, n, k - 1, m); }
  }

  /** A step of another thread. */
  lemma OthersBooks(cfg: Config, s: System, n: System, t: Thread, b: Buffer, p: Place)
    requires MasterBooks(cfg, s) && HasMasters(n, cfg.masters) && !t.Master?
    requires t in n.threads && n.threads == s.threads[t := n.threads[t]]
    requires forall m: nat :: m < cfg.masters ==> n.totPkt[Master(m)] == s.totPkt[Master(m)]
    requires n.place == s.place || (b < |s.place| && n.place == s.place[b := p] && (SentOn(p) <==> SentOn(s.place[b])))
    ensures MasterBooks(cfg, n)
  {
    MastersSame(s, n, cfg.masters);
    if n.place != s.place { CountMove(s.place, b, p, SentOn); }
  }

  lemma NewMasterBooks(cfg: Config, s: System, n: System, p: Place)
    requires MasterBooks(cfg, s) && n.place == s.place + [p] && !SentOn(p) && HasMasters(n, cfg.masters)
    requires forall m: nat :: m < cfg.masters ==>
               n.totPkt[Master(m)] == s.totPkt[Master(m)] && n.threads[Master(m)] == s.threads[Master(m)]
    ensures MasterBooks(cfg, n)
  {
    MastersSame(s, n, cfg.masters);
    CountMore(s.place, p, SentOn);
  }

  lemma ReceiverMasterBooks(cfg: Config, s: System, choice: nat, from: Address)
    requires Inv(s) && Configured(cfg, s) && Books(s) && MasterBooks(cfg, s)
    ensures MasterBooks(cfg, ReceiverNext(cfg, s, choice, from))
  {
    hide Inv;
    hide SendOrFree;
    hide FreeBooks;
    hide MasterBooks;
    Shape(s);
    var n := ReceiverNext(cfg, s, choice, from);
    var b := s.threads[Receiver].b;
    if s.threads[Receiver].Holding? {
      OthersBooks(cfg, s, n, Receiver, b, Hand(Receiver));
    } else {
      assert ThreadOk(s, Receiver);
      SendEffect(s, Receiver);
      var (r, over) := SendOrFree(s, Receiver);
      Shape(r);
      OthersBooks(cfg, s, r, Receiver, b, r.place[b]);
      if over { NewMasterBooks(cfg, r, n, Hand(Receiver)); }
    }
  }

  lemma TakeMasterBooks(cfg: Config, s: System, t: Thread)
    requires Inv(s) && t in s.threads && s.threads[t].Taking? && MasterBooks(cfg, s)
    requires t.Master? ==> t.index < cfg.masters
    ensures MasterBooks(cfg, TakeStep(s, t).0)
  {
    hide Inv;
    hide TakeStep;
    Shape(s);
    assert ThreadOk(s, t);
    TakeEffect(s, t);
    var n := TakeStep(s, t).0;
    if n.threads[t].Holding? { CountMove(s.place, n.threads[t].b, Hand(t), SentOn); }
    MastersSame(s, n, cfg.masters);
  }

  lemma SendMasterBooks(cfg: Config, s: System, m: nat)
    requires Inv(s) && m < cfg.masters && MasterBooks(cfg, s) && s.threads[Master(m)].Sending?
    ensures MasterBooks(cfg, SendOrFree(s, Master(m)).0)
  {
    hide Inv;
    hide SendOrFree;
    var t := Master(m);
    var (n, over) := SendOrFree(s, t);
    Shape(s);
    assert ThreadOk(s, t);
    SendEffect(s, t);
    CountMove(s.place, s.threads[t].b, n.place[s.threads[t].b], SentOn);
    MastersChange(s, n, cfg.masters, m);
  }

  /** One more packet counted is one more buffer on its way. */
  lemma MasterMasterBooks(cfg: Config, s: System, m: nat, choice: nat)
    requires Inv(s) && Configured(cfg, s) && MasterBooks(cfg, s)
    ensures MasterBooks(cfg, MasterNext(cfg, s, m, choice))
  {
    hide Inv;
    hide SendOrFree;
    hide TakeStep;
    Shape(s);
    var n := MasterNext(cfg, s, m, choice);
    var t := Master(m);
    if m < cfg.masters {
      match s.threads[t]
      case Taking(_) => TakeMasterBooks(cfg, s, t);
      case Sending(_, _) => SendMasterBooks(cfg, s, m);
      case Idle => MastersChange(s, n, cfg.masters, m);
      case Holding(b) =>
        assert ThreadOk(s, t);
        CountMove(s.place, b, n.place[b], SentOn);
        MastersChange(s, n, cfg.masters, m);
    }
  }

  lemma WorkerMasterBooks(cfg: Config, s: System, c: nat, p: nat, m: nat)
    requires Inv(s) && MasterBooks(cfg, s)
    ensures MasterBooks(cfg, WorkerNext(s, c, p, m))
  {
    hide Inv;
    hide TakeStep;
    hide MasterBooks;
    Shape(s);
    var n := WorkerNext(s, c, p, m);
    var t := Worker(c);
    MastersThere(cfg, s);
    if t in s.threads {
      assert ThreadOk(s, t);
      match s.threads[t]
      case Taking(_) => TakeMasterBooks(cfg, s, t);
      case Sending(_, _) =>
      case Idle => if ToWorker(p, c, m) in s.rings { OthersBooks(cfg, s, n, t, 0, SetAside); }
      case Holding(b) => OthersBooks(cfg, s, n, t, b, Freed(t));
    }
  }
}
