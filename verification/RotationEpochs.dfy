/** Safe close of a replaced log file.  Drains read `fptr` without the lock and write to what they
    have read; a set call may close a file.  The code relies on every thread calling the set
    function once in each round of n calls.  Here: that is exactly when it is safe. */
module RotationEpochs {
  import opened Bytes
  import opened Rotation
  import Bits

  /** A thread, 0 to n - 1. */
  type Thread = nat

  /** The unlocked read of fptr for a drain, the end of the drain, which adds what it has written to
      file_size, and a set call under the lock. */
  datatype Event = Begin(t: Thread) | End(t: Thread, size: nat) | Set(t: Thread)

  /** The file, and what each drain under way is writing to. */
  datatype System = System(h: Handle, holds: map<Thread, File>)

  /** All n threads have registered, and no rotation is under way. */
  ghost predicate Ready(s: System, n: nat) {
    n > 0 && Valid(s.h, n) && s.h.prevRef == 0 && s.holds == map[]
  }

  /** The file when `n` threads have registered, and nothing else has happened. */
  function AllIn(n: nat): Handle {
    if n == 0 then NoFile() else Registered(AllIn(n - 1))
  }

  /** However many threads register, one file is opened, and the system is ready. */
  lemma {:induction false} StartsReady(n: nat)
    requires n > 0
    ensures Ready(System(AllIn(n), map[]), n) && AllIn(n).files == 1
  {
    hide Numbers;
    if n == 1 {
      assert AllIn(1) == Registered(AllIn(0)) && AllIn(0) == NoFile();
      RegisteredValid(NoFile(), 0);
    } else {
      StartsReady(n - 1);
      RegisteredValid(AllIn(n - 1), n - 1);
    }
  }

  /** A thread runs one drain at a time, and none during its own set call. */
  predicate Enabled(s: System, e: Event, n: nat) {
    match e
    case Begin(t) => t < n && t !in s.holds && s.h.fptr.Some?
    case End(t, _) => t in s.holds
    case Set(t) => t < n && t !in s.holds
  }

  function Next(s: System, e: Event): System
    requires e.Begin? ==> s.h.fptr.Some?
  {
    match e
    case Begin(t) => s.(holds := s.holds[t := s.h.fptr.value])
    case End(t, size) => System(Added(s.h, size), map u | u in s.holds && u != t :: s.holds[u])
    case Set(_) => s.(h := Replaced(s.h))
  }

  predicate Possible(s: System, run: seq<Event>, n: nat)
    decreases |run|
  {
    run == [] || (Enabled(s, run[0], n) && Possible(Next(s, run[0]), run[1..], n))
  }

  /** No drain writes to a file that has been closed. */
  predicate Safe(s: System) {
    forall t :: t in s.holds ==> s.holds[t] !in s.h.closed
  }

  predicate AlwaysSafe(s: System, run: seq<Event>, n: nat)
    requires Possible(s, run, n)
    decreases |run|
  {
    Safe(s) && (run == [] || AlwaysSafe(Next(s, run[0]), run[1..], n))
  }

  /** The threads that call the set function, in order. */
  function Callers(run: seq<Event>): seq<Thread> {
    if run == [] then []
    else (if run[0].Set? then [run[0].t] else []) + Callers(run[1..])
  }

  predicate AllBelow(callers: seq<Thread>, n: nat) {
    forall i :: 0 <= i < |callers| ==> callers[i] < n
  }

  predicate EveryThread(round: seq<Thread>, n: nat) {
    forall t: Thread :: t < n ==> t in round
  }

  /** In every complete round of n set calls each thread makes one. */
  predicate OnceARound(callers: seq<Thread>, n: nat)
    requires n > 0
  {
    |callers| >= n ==> EveryThread(callers[..n], n) && OnceARound(callers[n..], n)
  }

  // ----- n calls by n threads

  function Without(round: seq<Thread>, i: nat): seq<Thread>
    requires i < |round|
  {
    round[..i] + round[i + 1..]
  }

  /** To contain n threads a round needs n calls. */
  lemma {:induction false} NeedsAll(round: seq<Thread>, n: nat)
    requires EveryThread(round, n)
    ensures |round| >= n
    decreases n
  {
    if n > 0 {
      var last: Thread := n - 1;
      assert last in round;
      var i :| 0 <= i < |round| && round[i] == last;
      forall t: Thread | t < n - 1
        ensures t in Without(round, i)
      {
        assert t in round;
      }
      NeedsAll(Without(round, i), n - 1);
    }
  }

  /** A round of n calls in which every thread calls is one in which no thread calls twice. */
  lemma OnceEach(round: seq<Thread>, n: nat)
    requires |round| == n
    requires EveryThread(round, n)
    ensures forall i, j :: 0 <= i < j < n ==> round[i] != round[j]
  {
    forall i, j | 0 <= i < j < n
      ensures round[i] != round[j]
    {
      if round[i] == round[j] {
        forall t: Thread | t < n
          ensures t in Without(round, j)
        {
          assert t in round;
          assert Without(round, j)[i] == round[i];
        }
        NeedsAll(Without(round, j), n);
      }
    }
  }

  // ----- once a round is enough

  /** `called`: who has called in the round under way.  A drain holds the current file, or the
      previous one if its thread has not called yet. */
  ghost predicate InRound(s: System, called: seq<Thread>, n: nat) {
    && n > 0 && |called| < n && Valid(s.h, n)
    && s.h.prevRef == (if called == [] then 0 else n - |called|)
    && forall t :: t in s.holds ==> t < n && (s.h.fptr == Some(s.holds[t]) || (s.h.prev == Some(s.holds[t]) && t !in called))
  }

  lemma InRoundIsSafe(s: System, called: seq<Thread>, n: nat)
    requires InRound(s, called, n)
    ensures Safe(s)
  {
  }

  lemma SetKeeps(s: System, called: seq<Thread>, n: nat, t: Thread)
    requires InRound(s, called, n) && Enabled(s, Set(t), n)
    requires |called| + 1 == n ==> EveryThread(called + [t], n)
    ensures InRound(Next(s, Set(t)), if |called| + 1 == n then [] else called + [t], n)
  {
    ReplacedValid(s.h, n);
    var m := Next(s, Set(t));
    forall u | u in m.holds
      ensures m.h.fptr == Some(m.holds[u]) || (m.h.prev == Some(m.holds[u]) && |called| + 1 < n && u !in called + [t])
    {
      assert u in s.holds && u != t;
      if |called| + 1 == n { assert u in called + [t]; }
    }
  }

  lemma {:induction false} EnoughFrom(s: System, called: seq<Thread>, n: nat, run: seq<Event>)
    requires InRound(s, called, n) && Possible(s, run, n)
    requires OnceARound(called + Callers(run), n)
    ensures AlwaysSafe(s, run, n)
    decreases |run|
  {
    InRoundIsSafe(s, called, n);
    if run != [] {
      var e, rest := run[0], run[1..];
      if e.Set? {
        var more := called + [e.t];
        assert called + Callers(run) == more + Callers(rest);
        if |more| == n {
          assert (more + Callers(rest))[..n] == more && (more + Callers(rest))[n..] == [] + Callers(rest);
        }
        SetKeeps(s, called, n, e.t);
        EnoughFrom(Next(s, e), if |more| == n then [] else more, n, rest);
      } else {
        assert called + Callers(run) == called + Callers(rest);
        EnoughFrom(Next(s, e), called, n, rest);
      }
    }
  }

  // ----- and it is needed

  /** Only set calls. */
  function OnlySets(callers: seq<Thread>): seq<Event> {
    if callers == [] then [] else [Set(callers[0])] + OnlySets(callers[1..])
  }

  /** A thread that sits a round out. */
  ghost function Absent(round: seq<Thread>, n: nat): (t: Thread)
    requires !EveryThread(round, n)
    ensures t < n && t !in round
  {
    var t: Thread :| t < n && t !in round;
    t
  }

  /** Up to the first round that a thread sits out, and through it with a drain of that thread
      under way. */
  ghost function Bad(callers: seq<Thread>, n: nat): (run: seq<Event>)
    requires n > 0 && !OnceARound(callers, n)
    decreases |callers|
  {
    var round, rest := callers[..n], callers[n..];
    if EveryThread(round, n) then OnlySets(round) + Bad(rest, n)
    else
      var t := Absent(round, n);
      [Begin(t)] + (OnlySets(round) + ([End(t, 0)] + OnlySets(rest)))
  }

  lemma CallersFirst(e: Event, rest: seq<Event>)
    ensures Callers([e] + rest) == (if e.Set? then [e.t] else []) + Callers(rest)
  {
    assert ([e] + rest)[1..] == rest;
  }

  lemma {:induction false} CallersConcat(a: seq<Event>, b: seq<Event>)
    ensures Callers(a + b) == Callers(a) + Callers(b)
  {
    if a == [] {
      assert a + b == b;
    } else {
      hide Callers;
      var e, rest := a[0], a[1..];
      assert a == [e] + rest;
      assert a + b == [e] + (rest + b);
      CallersConcat(rest, b);
      CallersFirst(e, rest);
      CallersFirst(e, rest + b);
      assert Callers(a + b) == (if e.Set? then [e.t] else []) + (Callers(rest) + Callers(b));
    }
  }

  lemma {:induction false} CallersOnlySets(callers: seq<Thread>)
    ensures Callers(OnlySets(callers)) == callers
  {
    if callers != [] {
      assert OnlySets(callers)[1..] == OnlySets(callers[1..]);
      CallersOnlySets(callers[1..]);
    }
  }

  lemma {:induction false} CallersBad(callers: seq<Thread>, n: nat)
    requires n > 0 && !OnceARound(callers, n)
    ensures Callers(Bad(callers, n)) == callers
    decreases |callers|
  {
    var round, rest := callers[..n], callers[n..];
    assert callers == round + rest;
    if EveryThread(round, n) {
      CallersOnlySets(round);
      CallersConcat(OnlySets(round), Bad(rest, n));
      CallersBad(rest, n);
    } else {
      CallersSatOut(Absent(round, n), round, rest);
    }
  }

  lemma CallersSatOut(t: Thread, round: seq<Thread>, rest: seq<Thread>)
    ensures Callers([Begin(t)] + (OnlySets(round) + ([End(t, 0)] + OnlySets(rest)))) == round + rest
  {
    CallersOnlySets(round);
    CallersOnlySets(rest);
    CallersConcat([End(t, 0)], OnlySets(rest));
    CallersConcat(OnlySets(round), [End(t, 0)] + OnlySets(rest));
    CallersConcat([Begin(t)], OnlySets(round) + ([End(t, 0)] + OnlySets(rest)));
  }

  /** The state after a run. */
  function Play(s: System, run: seq<Event>, n: nat): System
    requires Possible(s, run, n)
    decreases |run|
  {
    if run == [] then s else Play(Next(s, run[0]), run[1..], n)
  }

  lemma {:induction false} Joined(s: System, a: seq<Event>, b: seq<Event>, n: nat)
    requires Possible(s, a, n) && Possible(Play(s, a, n), b, n)
    ensures Possible(s, a + b, n)
    ensures Play(s, a + b, n) == Play(Play(s, a, n), b, n)
    ensures AlwaysSafe(s, a + b, n) ==> AlwaysSafe(Play(s, a, n), b, n)
    decreases |a|
  {
    if a == [] {
      assert a + b == b;
    } else {
      assert (a + b)[0] == a[0] && (a + b)[1..] == a[1..] + b;
      Joined(Next(s, a[0]), a[1..], b, n);
    }
  }

  lemma {:induction false} SetsShift(h: Handle, k: nat)
    requires k > 0
    ensures Sets(Replaced(h), k - 1) == Sets(h, k)
  {
    if k > 1 { SetsShift(h, k - 1); }
  }

  lemma {:induction false} PlaySets(s: System, callers: seq<Thread>, n: nat)
    requires AllBelow(callers, n) && forall i :: 0 <= i < |callers| ==> callers[i] !in s.holds
    ensures Possible(s, OnlySets(callers), n)
    ensures Play(s, OnlySets(callers), n) == s.(h := Sets(s.h, |callers|))
    decreases |callers|
  {
    if callers != [] {
      assert OnlySets(callers)[0] == Set(callers[0]) && OnlySets(callers)[1..] == OnlySets(callers[1..]);
      SetsShift(s.h, |callers|);
      PlaySets(Next(s, Set(callers[0])), callers[1..], n);
    }
  }

  /** A whole round closes the file that was current before it. */
  lemma RoundCloses(h: Handle, n: nat)
    requires n > 0 && Valid(h, n) && h.prevRef == 0
    ensures Valid(Sets(h, n), n) && Sets(h, n).prevRef == 0
    ensures h.fptr.Some? && h.fptr.value in Sets(h, n).closed
  {
    Rotations(h, n, n);
    NextRound(n - 1, n);
    NextRound(n, n);
    Bits.DivModUnique(n, n, 1, 0);
    var g := Sets(h, n);
    assert g.closed[h.files - 1] == h.files - 1;
  }

  lemma {:induction false} BadIsUnsafe(s: System, callers: seq<Thread>, n: nat)
    requires Ready(s, n) && !OnceARound(callers, n)
    requires AllBelow(callers, n)
    ensures Possible(s, Bad(callers, n), n)
    ensures !AlwaysSafe(s, Bad(callers, n), n)
    decreases |callers|
  {
    var round, rest := callers[..n], callers[n..];
    RoundCloses(s.h, n);
    if EveryThread(round, n) {
      PlaySets(s, round, n);
      BadIsUnsafe(Play(s, OnlySets(round), n), rest, n);
      Joined(s, OnlySets(round), Bad(rest, n), n);
    } else {
      SatOut(s, round, rest, n);
    }
  }

  lemma SatOut(s: System, round: seq<Thread>, rest: seq<Thread>, n: nat)
    requires Ready(s, n) && |round| == n && !EveryThread(round, n)
    requires AllBelow(round, n) && AllBelow(rest, n)
    ensures var t := Absent(round, n);
            var run := [Begin(t)] + (OnlySets(round) + ([End(t, 0)] + OnlySets(rest)));
            Possible(s, run, n) && !AlwaysSafe(s, run, n)
  {
    var t := Absent(round, n);
    var tail := [End(t, 0)] + OnlySets(rest);
    RoundCloses(s.h, n);
    var begun := Next(s, Begin(t));
    PlaySets(begun, round, n);
    var closed := Play(begun, OnlySets(round), n);
    assert t in closed.holds && closed.holds[t] in closed.h.closed;
    assert !Safe(closed);
    assert tail[0] == End(t, 0) && tail[1..] == OnlySets(rest);
    PlaySets(Next(closed, End(t, 0)), rest, n);
    assert Possible(closed, tail, n);
    Joined(begun, OnlySets(round), tail, n);
    assert ([Begin(t)] + (OnlySets(round) + tail))[1..] == OnlySets(round) + tail;
  }

  /** Safe close, exactly: with these set calls in this order no interleaving of the drains ever
      writes to a closed file, if and only if in every complete round each thread calls once. */
  lemma SafeClose(s: System, callers: seq<Thread>, n: nat)
    requires Ready(s, n) && AllBelow(callers, n)
    ensures (forall run :: Possible(s, run, n) && Callers(run) == callers ==> AlwaysSafe(s, run, n))
       <==> OnceARound(callers, n)
  {
    if OnceARound(callers, n) {
      forall run | Possible(s, run, n) && Callers(run) == callers
        ensures AlwaysSafe(s, run, n)
      {
        assert [] + Callers(run) == callers;
        EnoughFrom(s, [], n, run);
      }
    } else {
      CallersBad(callers, n);
      BadIsUnsafe(s, callers, n);
    }
  }

  /** A file that outgrows its limit makes whichever thread notices call the set function, so one
      of two threads may call twice in a row; then the other can write to a closed file. */
  lemma OneThreadTwice(s: System)
    requires Ready(s, 2)
    ensures exists run :: Possible(s, run, 2) && Callers(run) == [0, 0] && !AlwaysSafe(s, run, 2)
  {
    var callers: seq<Thread> := [0, 0];
    assert (1 as Thread) !in callers[..2];
    assert !OnceARound(callers, 2);
    SafeClose(s, callers, 2);
  }

  // ----- what file_size counts

  /** Of the drains that have ended since the last file was opened: the bytes that went to that file,
      and those that went to an older one. */
  datatype Counts = Counts(own: nat, stray: nat)

  function Counted(s: System, e: Event, c: Counts): Counts
    requires e.Begin? ==> s.h.fptr.Some?
  {
    if Next(s, e).h.files > s.h.files then Counts(0, 0)
    else if e.End? && e.t in s.holds then
      if s.h.fptr == Some(s.holds[e.t]) then c.(own := c.own + e.size) else c.(stray := c.stray + e.size)
    else c
  }

  function CountedAll(s: System, run: seq<Event>, n: nat, c: Counts): Counts
    requires Possible(s, run, n)
    decreases |run|
  {
    if run == [] then c else CountedAll(Next(s, run[0]), run[1..], n, Counted(s, run[0], c))
  }

  /** file_size counts what has been written to the current file, and also what drains that had read
      fptr before the file was opened have written to the one before it.  So it is the size of the
      current file if and only if there was nothing of that kind (in 64 bits). */
  lemma {:induction false} SizeCounts(s: System, run: seq<Event>, n: nat, c: Counts)
    requires n > 0 && Valid(s.h, n) && Possible(s, run, n)
    requires s.h.fileSize == (c.own + c.stray) % FILE_SIZE_SPAN
    ensures var d := CountedAll(s, run, n, c);
            && Play(s, run, n).h.fileSize == (d.own + d.stray) % FILE_SIZE_SPAN
            && (Play(s, run, n).h.fileSize == d.own % FILE_SIZE_SPAN <==> d.stray % FILE_SIZE_SPAN == 0)
    decreases |run|
  {
    if run == [] {
      StrayWraps(c.own, c.stray);
    } else {
      var e := run[0];
      if e.Set? { ReplacedValid(s.h, n); }
      if e.End? { SumWraps(c.own + c.stray, e.size); }
      SizeCounts(Next(s, e), run[1..], n, Counted(s, e, c));
    }
  }

  lemma StrayWraps(a: nat, b: nat)
    ensures (a + b) % FILE_SIZE_SPAN == a % FILE_SIZE_SPAN <==> b % FILE_SIZE_SPAN == 0
  {
    var q, r := a / FILE_SIZE_SPAN, a % FILE_SIZE_SPAN;
    var k, t := b / FILE_SIZE_SPAN, b % FILE_SIZE_SPAN;
    assert a + b == (q + k) * FILE_SIZE_SPAN + (r + t);
    if r + t < FILE_SIZE_SPAN {
      Bits.DivModUnique(a + b, FILE_SIZE_SPAN, q + k, r + t);
    } else {
      Bits.DivModUnique(a + b, FILE_SIZE_SPAN, q + k + 1, r + t - FILE_SIZE_SPAN);
    }
  }

  /** A drain of one of two threads that is under way while the other one opens a file. */
  lemma StrayDrain(s: System, size: nat)
    requires Ready(s, 2) && s.h.fileSize == 0
    ensures var run := [Begin(1), Set(0), End(1, size)];
            Possible(s, run, 2) && CountedAll(s, run, 2, Counts(0, 0)) == Counts(0, size)
  {
    var run := [Begin(1), Set(0), End(1, size)];
    var s1 := Next(s, Begin(1));
    var s2 := Next(s1, Set(0));
    var s3 := Next(s2, End(1, size));
    var none := Counts(0, 0);
    ReplacedValid(s.h, 2);
    assert run[1..] == [Set(0), End(1, size)] && run[1..][1..] == [End(1, size)] && run[1..][1..][1..] == [];
    assert Possible(s2, [End(1, size)], 2) && Possible(s1, [Set(0), End(1, size)], 2);
    assert s2.h.files == s.h.files + 1 && s2.h.fptr == Some(s.h.files) && s2.holds == map[1 := s.h.files - 1];
    assert Counted(s2, End(1, size), none) == Counts(0, size);
    assert CountedAll(s3, [], 2, Counts(0, size)) == Counts(0, size);
    assert CountedAll(s2, run[1..][1..], 2, none) == Counts(0, size);
    assert CountedAll(s1, run[1..], 2, none) == Counts(0, size);
  }
}
