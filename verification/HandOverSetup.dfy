/** What main sets up before the threads start: a ring to each master, and rings from each master
    to the dedicated cores of each plugin.  Every run of receiver, masters and workers starts from
    such a system. */
module HandOverSetup {
  import opened Bits
  import opened RingGeometry
  import opened HandOver
  import opened HandOverRuns
  import R = RingMachine

  const RING_SIZE: nat := 262144

  type Rings = map<RingId, R.Machine<Buffer>>

  ghost predicate NewRing(m: R.Machine<Buffer>) {
    EmptyRing(m) && m.g.size == RING_SIZE && m.g.capacity == RING_SIZE - 1
  }

  ghost predicate NewRings(rings: Rings) {
    forall r :: r in rings ==> NewRing(rings[r])
  }

  /** A ring to one of the masters. */
  predicate FromReceiver(r: RingId, masters: nat) {
    r.ToMaster? && r.master < masters
  }

  /** A ring from one of the masters to one of the cores of a plugin. */
  predicate Dedicated(r: RingId, p: nat, cores: seq<nat>, masters: nat) {
    r.ToWorker? && r.plugin == p && r.core in cores && r.master < masters
  }

  /** ring_create with RING_SIZE; the memory of the slots is taken as zero. */
  method CreateRing() returns (ring: R.Machine<Buffer>)
    ensures NewRing(ring)
  {
    BigPowers();
    assert Pow2(18) == RING_SIZE;
    var made := Create(RING_SIZE, false);
    ring := R.Created(made.g, seq(made.g.size, _ => 0));
  }

  /** create_rings_receiver_main. */
  method CreateReceiverRings(before: Rings, masters: nat) returns (rings: Rings)
    requires NewRings(before)
    ensures NewRings(rings) && forall r :: r in rings <==> r in before || FromReceiver(r, masters)
  {
    hide NewRing;
    rings := before;
    for b := 0 to masters
      invariant NewRings(rings) && forall r :: r in rings <==> r in before || FromReceiver(r, b)
    {
      var ring := CreateRing();
      rings := rings[ToMaster(b) := ring];
    }
  }

  /** create_rings_dedicated_threads. */
  method CreateDedicatedRings(before: Rings, p: nat, cores: seq<nat>, masters: nat) returns (rings: Rings)
    requires NewRings(before)
    ensures NewRings(rings) && forall r :: r in rings <==> r in before || Dedicated(r, p, cores, masters)
  {
    hide NewRing;
    rings := before;
    for a := 0 to masters
      invariant NewRings(rings) && forall r :: r in rings <==> r in before || Dedicated(r, p, cores, a)
    {
      ghost var outer := rings;
      for i := 0 to |cores|
        invariant NewRings(rings)
        invariant forall r :: r in rings <==> r in outer || (Dedicated(r, p, cores[..i], a + 1) && r.master == a)
      {
        var ring := CreateRing();
        rings := rings[ToWorker(p, cores[i], a) := ring];
        assert cores[..i + 1] == cores[..i] + [cores[i]];
      }
      assert cores[..|cores|] == cores;
    }
  }

  /** Every address belongs to a plugin, every plugin has dedicated cores, and there is a master. */
  ghost predicate Usable(cfg: Config) {
    && cfg.masters > 0
    && (forall a :: a in cfg.lookup ==> cfg.lookup[a] in cfg.cores)
    && (forall p :: p in cfg.cores ==> cfg.cores[p] != [])
  }

  /** The set-up of main, for the plugins in the order in which they are configured. */
  method Setup(cfg: Config, plugins: seq<nat>) returns (s: System)
    requires Usable(cfg) && forall p :: p in plugins <==> p in cfg.cores
    ensures Started(cfg, s)
  {
    hide NewRing;
    var rings: Rings := map[];
    for i := 0 to |plugins|
      invariant NewRings(rings)
      invariant forall r :: r in rings <==>
                  r.ToWorker? && r.plugin in plugins[..i] && Dedicated(r, r.plugin, cfg.cores[r.plugin], cfg.masters)
    {
      rings := CreateDedicatedRings(rings, plugins[i], cfg.cores[plugins[i]], cfg.masters);
      assert plugins[..i + 1] == plugins[..i] + [plugins[i]];
    }
    assert plugins[..|plugins|] == plugins;
    rings := CreateReceiverRings(rings, cfg.masters);
    var threads := {Receiver}
                   + (set m | 0 <= m < cfg.masters :: Master(m))
                   + (set p, c | p in cfg.cores && c in cfg.cores[p] :: Worker(c));
    s := System(rings, map t | t in threads :: if t == Receiver then Holding(0) else Idle,
                map t | t in threads :: 0, map t | t in threads :: 0, [0], [Hand(Receiver)], []);
    SetupStarted(cfg, s, threads);
  }

  lemma SetupStarted(cfg: Config, s: System, threads: set<Thread>)
    requires Usable(cfg) && NewRings(s.rings)
    requires forall r :: r in s.rings <==>
               FromReceiver(r, cfg.masters)
               || (r.ToWorker? && r.plugin in cfg.cores && Dedicated(r, r.plugin, cfg.cores[r.plugin], cfg.masters))
    requires forall t :: t in threads <==>
               match t
               case Receiver => true
               case Master(m) => m < cfg.masters
               case Worker(c) => exists p :: p in cfg.cores && c in cfg.cores[p]
    requires s.threads == map t | t in threads :: if t == Receiver then Holding(0) else Idle
    requires s.totPkt == (map t | t in threads :: 0) && s.totFree == (map t | t in threads :: 0)
    requires s.address == [0] && s.place == [Hand(Receiver)] && s.freed == []
    ensures Started(cfg, s)
  {
    assert Configured(cfg, s);
    forall r | r in s.rings
      ensures ProducerOf(r) in s.threads && ConsumerOf(r) in s.threads && EmptyRing(s.rings[r])
    {
      assert NewRing(s.rings[r]);
    }
  }
}
