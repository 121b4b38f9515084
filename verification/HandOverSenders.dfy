/** Every buffer carries the address that recvfrom stored in it, from the moment it leaves the
    receiver. */
module HandOverSenders {
  import opened HandOver
  import opened HandOverBooks
  import R = RingMachine

  /** The senders of the packets that the receiver has got along a schedule, in their order: a turn
      of the receiver is a recvfrom if it holds a buffer. */
  ghost function Senders(cfg: Config, s: System, schedule: seq<Action>): seq<Address>
    requires Inv(s) && Configured(cfg, s)
    decreases |schedule|
  {
    if schedule == [] then []
    else Received(s, schedule[0]) + Senders(cfg, Next(cfg, s, schedule[0]), schedule[1..])
  }

  function Received(s: System, a: Action): seq<Address> {
    if a.ReceiverTurn? && Receiver in s.threads && s.threads[Receiver].Holding? then [a.from] else []
  }

  /** The buffers that have left the hand of the receiver are numbered as the packets received, and
      have their senders as addresses. */
  ghost predicate SenderBooks(s: System, senders: seq<Address>) {
    && |senders| <= |s.address| == |s.place| && s.address[..|senders|] == senders
    && Receiver in s.threads
    && match s.threads[Receiver]
       case Holding(b) => b == |senders| && |s.place| == |senders| + 1
       case Sending(b, _) => b + 1 == |senders| == |s.place|
       case _ => false
  }

  lemma ReceiverRecords(cfg: Config, s: System, choice: nat, from: Address, senders: seq<Address>)
    requires Inv(s) && Configured(cfg, s) && SenderBooks(s, senders)
    ensures SenderBooks(ReceiverNext(cfg, s, choice, from), senders + Received(s, ReceiverTurn(choice, from)))
  {
    hide R.Inv;
    hide Queued;
    hide SendOrFree;
    hide Inv;
    var n := ReceiverNext(cfg, s, choice, from);
    if s.threads[Receiver].Sending? {
      SendEffect(s, Receiver);
    } else {
      var b := s.threads[Receiver].b;
      assert n.address == s.address[b := from];
      assert n.address[..b] == s.address[..b];
      assert n.address[..b + 1] == n.address[..b] + [from];
    }
  }

  /** Nothing has happened to the receiver or to any address. */
  ghost predicate Unrecorded(s: System, n: System) {
    && n.address == s.address && |n.place| == |s.place|
    && Receiver in s.threads && Receiver in n.threads && n.threads[Receiver] == s.threads[Receiver]
  }

  lemma MasterRecordsNothing(cfg: Config, s: System, m: nat, choice: nat)
    requires Inv(s) && Configured(cfg, s)
    ensures Unrecorded(s, MasterNext(cfg, s, m, choice))
  {
    hide R.Inv;
    hide Queued;
    hide SendOrFree;
    hide TakeStep;
    Shape(s);
    hide Inv;
    if m < cfg.masters {
      match s.threads[Master(m)]
      case Sending(_, _) => SendEffect(s, Master(m));
      case Taking(_) => TakeEffect(s, Master(m));
      case _ =>
    }
  }

  lemma WorkerRecordsNothing(s: System, c: nat, p: nat, m: nat)
    requires Inv(s) && Receiver in s.threads
    ensures Unrecorded(s, WorkerNext(s, c, p, m))
  {
    hide R.Inv;
    hide Queued;
    hide TakeStep;
    Shape(s);
    hide Inv;
    if Worker(c) in s.threads {
      match s.threads[Worker(c)]
      case Taking(_) => TakeEffect(s, Worker(c));
      case _ =>
    }
  }

  lemma NextRecords(cfg: Config, s: System, a: Action, senders: seq<Address>)
    requires Inv(s) && Configured(cfg, s) && SenderBooks(s, senders)
    ensures SenderBooks(Next(cfg, s, a), senders + Received(s, a))
  {
    hide ReceiverNext;
    hide MasterNext;
    hide WorkerNext;
    hide Inv;
    assert senders + [] == senders;
    match a
    case ReceiverTurn(choice, from) => ReceiverRecords(cfg, s, choice, from, senders);
    case MasterTurn(m, choice) => MasterRecordsNothing(cfg, s, m, choice);
    case WorkerTurn(c, p, m) => WorkerRecordsNothing(s, c, p, m);
  }
}
