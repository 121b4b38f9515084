/** One change of the memory at a time: what each of them keeps of the counts, and what it leaves. */
module RefChanges {
  import opened RefGraph

  lemma EdgesNew(m: Memory, next: nat, c: Cell)
    ensures Edges(m[next := c], next + 1) == Edges(m, next) + multiset(c.kids)
  {
    EdgesSame(m, m[next := c], next);
  }

  lemma CountedNew(m: Memory, handles: multiset<Addr>, next: nat, c: Cell)
    requires Counted(m, handles, next) && WellFormed(c) && c.count == 1 && multiset(c.kids) <= handles
    ensures Counted(m[next := c], handles - multiset(c.kids) + multiset{next}, next + 1)
  {
    hide Edges;
    var n := m[next := c];
    var before, after := Edges(m, next), Edges(n, next + 1);
    EdgesNew(m, next, c);
    var kept := handles - multiset(c.kids) + multiset{next};
    forall a: Addr
      ensures CountOk(n, kept, after, a)
    {
      assert CountOk(m, handles, before, a);
      assert multiset(c.kids)[a] <= handles[a];
    }
  }

  lemma CountedClone(m: Memory, handles: multiset<Addr>, next: nat, a: Addr)
    requires Counted(m, handles, next) && a in m
    ensures Counted(m[a := m[a].(count := m[a].count + 1)], handles + multiset{a}, next)
  {
    var n := m[a := m[a].(count := m[a].count + 1)];
    hide Edges;
    EdgesSame(m, n, next);
    forall b: Addr
      ensures CountOk(n, handles + multiset{a}, Edges(n, next), b)
    {
      assert CountOk(m, handles, Edges(m, next), b);
    }
  }

  lemma CountedDrop(m: Memory, handles: multiset<Addr>, next: nat, a: Addr)
    requires Counted(m, handles, next) && a in m && a in handles && m[a].count > 1
    ensures Counted(m[a := m[a].(count := m[a].count - 1)], handles - multiset{a}, next)
  {
    hide Edges;
    var n := m[a := m[a].(count := m[a].count - 1)];
    var edges, kept := Edges(m, next), handles - multiset{a};
    EdgesSame(m, n, next);
    forall b: Addr
      ensures CountOk(n, kept, edges, b)
    {
      assert CountOk(m, handles, edges, b);
    }
  }

  /** The last reference goes, and with it the value; its own references are left to whoever took
      it away. */
  lemma CountedDie(m: Memory, handles: multiset<Addr>, next: nat, a: Addr)
    requires Counted(m, handles, next) && a in m && a in handles && m[a].count == 1
    ensures Counted(m - {a}, handles - multiset{a} + multiset(m[a].kids), next)
  {
    hide Edges;
    var n := m - {a};
    forall b: Addr
      ensures CountOk(n, handles - multiset{a} + multiset(m[a].kids), Edges(n, next), b)
    {
      EdgesChange(m, n, next, a, b);
      assert CountOk(m, handles, Edges(m, next), b);
    }
  }

  /** A container gets other references: some come from handles, some become handles. */
  lemma CountedPut(m: Memory, handles: multiset<Addr>, next: nat, a: Addr, c: Cell,
                   put: multiset<Addr>, out: multiset<Addr>)
    requires Counted(m, handles, next) && a in m && c.count == m[a].count && WellFormed(c)
    requires put <= handles && multiset(c.kids) + out == multiset(m[a].kids) + put
    ensures Counted(m[a := c], handles - put + out, next)
  {
    hide Edges;
    var n := m[a := c];
    forall b: Addr
      ensures CountOk(n, handles - put + out, Edges(n, next), b)
    {
      EdgesChange(m, n, next, a, b);
      assert CountOk(m, handles, Edges(m, next), b);
      assert (multiset(c.kids) + out)[b] == (multiset(m[a].kids) + put)[b];
      assert put[b] <= handles[b];
    }
  }

  lemma KidsAreLive(m: Memory, handles: multiset<Addr>, next: nat)
    requires Counted(m, handles, next)
    ensures forall b, k :: b in m && k in m[b].kids ==> k in m
    ensures forall h :: h in handles ==> h in m
  {
    forall b, k | b in m && k in m[b].kids
      ensures k in m
    {
      KidIsEdge(m, next, b, k);
      assert CountOk(m, handles, Edges(m, next), k);
    }
    forall h | h in handles
      ensures h in m
    {
      assert CountOk(m, handles, Edges(m, next), h);
    }
  }

  lemma InKids(kids: seq<Addr>, handles: multiset<Addr>)
    requires multiset(kids) <= handles
    ensures forall k :: k in kids ==> k in handles
  {
    forall k | k in kids
      ensures k in handles
    {
      assert k in multiset(kids);
    }
  }

  lemma NewKeepsAcyclic(m: Memory, handles: multiset<Addr>, next: nat, c: Cell)
    requires Counted(m, handles, next) && multiset(c.kids) <= handles
    ensures Acyclic(m) ==> Acyclic(m[next := c])
  {
    hide Acyclic;
    if Acyclic(m) {
      KidsAreLive(m, handles, next);
      InKids(c.kids, handles);
      AcyclicNew(m, next, c);
    }
  }

  lemma Addresses(m: Memory, handles: multiset<Addr>, next: nat)
    requires Counted(m, handles, next)
    ensures forall a :: a in m ==> a < next && WellFormed(m[a])
  {
  }

  /** Some values have gone; those that are left hold what they held. */
  ghost predicate Shrunk(m: Memory, n: Memory) {
    forall x :: x in n ==> x in m && n[x].shape == m[x].shape && n[x].kids == m[x].kids
  }

  /** The calls of free in between are those of the values that have gone. */
  ghost predicate FreedBetween(before: seq<Addr>, after: seq<Addr>, m: Memory, n: Memory) {
    before <= after && forall x: Addr :: x in after <==> x in before || (x in m && x !in n)
  }

  lemma ShrunkOn(m: Memory, n: Memory, k: Memory, a: seq<Addr>, b: seq<Addr>, c: seq<Addr>)
    requires Shrunk(m, n) && Shrunk(n, k) && FreedBetween(a, b, m, n) && FreedBetween(b, c, n, k)
    ensures Shrunk(m, k) && FreedBetween(a, c, m, k)
  {
  }

  lemma ShrunkByCount(m: Memory, a: Addr, c: Cell, freed: seq<Addr>)
    requires a in m && c.shape == m[a].shape && c.kids == m[a].kids
    ensures Shrunk(m, m[a := c]) && FreedBetween(freed, freed, m, m[a := c])
  {
  }

  lemma ShrunkByDeath(m: Memory, a: Addr, n: Memory, before: seq<Addr>, after: seq<Addr>)
    requires a in m && Shrunk(m - {a}, n) && FreedBetween(before, after, m - {a}, n)
    ensures Shrunk(m, n) && FreedBetween(before, after + [a], m, n)
  {
    assert a !in n;
  }

  /** One value holds something else, some values have gone, and the rest is as it was. */
  ghost predicate OthersStay(m: Memory, n: Memory, a: Addr) {
    forall x :: x in n && x != a ==> x in m && n[x].shape == m[x].shape && n[x].kids == m[x].kids
  }

  lemma ShrunkAfterPut(m: Memory, a: Addr, c: Cell, n: Memory, before: seq<Addr>, after: seq<Addr>)
    requires a in m && a in n && Shrunk(m[a := c], n) && FreedBetween(before, after, m[a := c], n)
    ensures OthersStay(m, n, a) && FreedBetween(before, after, m, n)
    ensures n[a].shape == c.shape && n[a].kids == c.kids
  {
  }

  lemma ShrunkNot(m: Memory, freed: seq<Addr>)
    ensures Shrunk(m, m) && FreedBetween(freed, freed, m, m)
  {
  }

  /** How many references there are. */
  ghost function References(m: Memory, handles: multiset<Addr>, next: nat): nat {
    |handles| + |Edges(m, next)|
  }

  lemma ReferencesAfterDeath(m: Memory, handles: multiset<Addr>, next: nat, a: Addr)
    requires a in m && a < next && a in handles
    ensures References(m - {a}, handles - multiset{a} + multiset(m[a].kids), next) == References(m, handles, next) - 1
  {
    hide Edges;
    forall b: Addr
      ensures Edges(m - {a}, next)[b] + multiset(m[a].kids)[b] == Edges(m, next)[b]
    {
      EdgesChange(m, m - {a}, next, a, b);
    }
    assert Edges(m - {a}, next) + multiset(m[a].kids) == Edges(m, next);
  }

  lemma ReferencesAfterDrop(m: Memory, handles: multiset<Addr>, next: nat, a: Addr)
    requires a in m && a in handles && m[a].count > 0
    ensures References(m[a := m[a].(count := m[a].count - 1)], handles - multiset{a}, next) == References(m, handles, next) - 1
  {
    EdgesSame(m, m[a := m[a].(count := m[a].count - 1)], next);
  }

  lemma AcyclicSmaller(m: Memory, n: Memory)
    requires Shrunk(m, n)
    ensures Acyclic(m) ==> Acyclic(n)
  {
    hide Acyclic;
    if Acyclic(m) { AcyclicPart(m, n); }
  }

  lemma PutKeepsAcyclic(m: Memory, handles: multiset<Addr>, next: nat, a: Addr, c: Cell, v: Addr)
    requires Counted(m, handles, next) && a in m && v in handles
    requires forall k :: k in c.kids ==> k in m[a].kids || k == v
    ensures Acyclic(m) && !Reaches(m, v, a) ==> Acyclic(m[a := c])
  {
    hide Acyclic;
    hide Reaches;
    if Acyclic(m) && !Reaches(m, v, a) {
      KidsAreLive(m, handles, next);
      AcyclicPut(m, m[a := c], a, v);
    }
  }

  lemma StillOwned(kids: seq<Addr>, i: nat, handles: multiset<Addr>)
    requires i < |kids| && multiset(kids) <= handles
    ensures kids[i] in handles - multiset(kids[..i])
    ensures handles - multiset(kids[..i + 1]) == handles - multiset(kids[..i]) - multiset{kids[i]}
    ensures kids[..i + 1] == kids[..i] + [kids[i]]
  {
    assert kids == kids[..i] + ([kids[i]] + kids[i + 1..]);
    assert kids[..i + 1] == kids[..i] + [kids[i]];
    assert multiset(kids)[kids[i]] >= multiset(kids[..i])[kids[i]] + 1;
  }

  /** A value with one reference, which a caller holds, is in no other value. */
  lemma NothingLeadsTo(m: Memory, handles: multiset<Addr>, next: nat, v: Addr, b: Addr)
    requires Counted(m, handles, next) && b in m && b in handles && m[b].count == 1 && v != b
    ensures !Reaches(m, v, b)
  {
    assert CountOk(m, handles, Edges(m, next), b);
    if p :| Path(m, p) && p[0] == v && p[|p| - 1] == b {
      KidIsEdge(m, next, p[|p| - 2], b);
    }
  }

  lemma HandleIsLive(m: Memory, handles: multiset<Addr>, next: nat, a: Addr)
    requires Counted(m, handles, next) && a in handles
    ensures a in m && a < next && m[a].count > 0
  {
    assert CountOk(m, handles, Edges(m, next), a);
  }

  // ----- what destroying can reach, and what it leaves

  /** Some of the roots leads to the value. */
  ghost predicate Led(m: Memory, roots: seq<Addr>, x: Addr) {
    exists k :: k in roots && Reaches(m, k, x)
  }

  lemma LedByOne(m: Memory, root: Addr, x: Addr)
    ensures Led(m, [root], x) ==> Reaches(m, root, x)
  {
    hide Reaches;
  }

  /** Values that hold each other: each is referred to by another one of the set, or by itself. */
  ghost predicate HoldEachOther(m: Memory, c: set<Addr>) {
    forall x :: x in c ==> x in m && HasHolder(m, c, x)
  }

  ghost predicate HasHolder(m: Memory, c: set<Addr>, x: Addr) {
    exists p :: p in c && p in m && x in m[p].kids
  }

  /** Only what the roots lead to has gone, and of the values that hold each other none. */
  ghost predicate Gone(m: Memory, n: Memory, roots: seq<Addr>) {
    && (forall x :: x in m && x !in n ==> Led(m, roots, x))
    && (forall c: set<Addr> :: HoldEachOther(m, c) ==> c <= n.Keys)
  }

  lemma GoneNot(m: Memory, n: Memory, roots: seq<Addr>)
    requires n.Keys == m.Keys
    ensures Gone(m, n, roots)
  {
  }

  lemma ReachesMore(m: Memory, n: Memory, a: Addr, b: Addr)
    requires Shrunk(m, n) && Reaches(n, a, b)
    ensures Reaches(m, a, b)
  {
    var p :| Path(n, p) && p[0] == a && p[|p| - 1] == b;
    assert Path(m, p);
  }

  lemma HoldMore(m: Memory, n: Memory, c: set<Addr>)
    requires Shrunk(m, n) && HoldEachOther(m, c) && c <= n.Keys
    ensures HoldEachOther(n, c)
  {
    forall x | x in c
      ensures x in n && HasHolder(n, c, x)
    {
      assert HasHolder(m, c, x);
      var p :| p in c && p in m && x in m[p].kids;
      assert p in n && x in n[p].kids;
    }
  }

  lemma GoneOn(m: Memory, n: Memory, k: Memory, roots: seq<Addr>, root: Addr)
    requires Shrunk(m, n) && Gone(m, n, roots) && Gone(n, k, [root])
    ensures Gone(m, k, roots + [root])
  {
    hide Reaches;
    forall x | x in m && x !in k
      ensures Led(m, roots + [root], x)
    {
      if x in n {
        assert Led(n, [root], x);
        ReachesMore(m, n, root, x);
        assert root in roots + [root];
      } else {
        var r :| r in roots && Reaches(m, r, x);
        assert r in roots + [root];
      }
    }
    forall c: set<Addr> | HoldEachOther(m, c)
      ensures c <= k.Keys
    {
      HoldMore(m, n, c);
    }
  }

  lemma NobodyHolds(m: Memory, handles: multiset<Addr>, next: nat, a: Addr)
    requires Counted(m, handles, next) && a in m && a in handles && m[a].count == 1
    ensures forall p :: p in m ==> a !in m[p].kids
  {
    assert CountOk(m, handles, Edges(m, next), a);
    forall p | p in m
      ensures a !in m[p].kids
    {
      if a in m[p].kids { KidIsEdge(m, next, p, a); }
    }
  }

  /** A value with its last reference goes, and then what its children lead to. */
  lemma GoneByDeath(m: Memory, handles: multiset<Addr>, next: nat, a: Addr, n: Memory)
    requires Counted(m, handles, next) && a in m && a in handles && m[a].count == 1
    requires Gone(m - {a}, n, m[a].kids)
    ensures Gone(m, n, [a])
  {
    hide Reaches;
    NobodyHolds(m, handles, next, a);
    forall x | x in m && x !in n
      ensures Led(m, [a], x)
    {
      assert a in [a];
      if x == a {
        ReachesSelf(m, a);
      } else {
        assert x in m - {a};
        var k :| k in m[a].kids && Reaches(m - {a}, k, x);
        ReachesMore(m, m - {a}, k, x);
        ReachesFrom(m, a, k, x);
      }
    }
    forall c: set<Addr> | HoldEachOther(m, c)
      ensures c <= n.Keys
    {
      assert a !in c;
      HoldMore(m, m - {a}, c);
    }
  }

  /** A path of the memory before leads through values that are still there, if it starts at one. */
  lemma {:induction false} PathSurvives(m: Memory, n: Memory, handles: multiset<Addr>, next: nat, p: seq<Addr>)
    requires Shrunk(m, n) && Counted(n, handles, next) && Path(m, p) && p[0] in n
    ensures Path(n, p) && p[|p| - 1] in n
    decreases |p|
  {
    if |p| > 1 {
      var q := p[..|p| - 1];
      assert forall i :: 0 <= i < |q| ==> q[i] == p[i];
      assert Path(m, q);
      PathSurvives(m, n, handles, next, q);
      assert p[|p| - 2] in n && p[|p| - 1] in n[p[|p| - 2]].kids;
      KidsAreLive(n, handles, next);
    }
  }

  /** Looking from the handles that are left, what was there before is in use as it is now. */
  lemma SameUse(m: Memory, n: Memory, handles: multiset<Addr>, next: nat, x: Addr)
    requires Shrunk(m, n) && Counted(n, handles, next)
    ensures InUse(m, handles, x) <==> InUse(n, handles, x)
    ensures InUse(n, handles, x) ==> x in n
  {
    hide Reaches;
    KidsAreLive(n, handles, next);
    if h :| h in handles && Reaches(m, h, x) {
      assert Reaches(n, h, x) && x in n by {
        var p := PathOf(m, h, x);
        PathSurvives(m, n, handles, next, p);
        PathReaches(n, p);
      }
    }
    if h :| h in handles && Reaches(n, h, x) { ReachesMore(m, n, h, x); }
  }

  lemma PathOf(m: Memory, a: Addr, b: Addr) returns (p: seq<Addr>)
    requires Reaches(m, a, b)
    ensures Path(m, p) && p[0] == a && p[|p| - 1] == b
  {
    p :| Path(m, p) && p[0] == a && p[|p| - 1] == b;
  }

  lemma PathReaches(m: Memory, p: seq<Addr>)
    requires Path(m, p)
    ensures Reaches(m, p[0], p[|p| - 1])
  {
  }

  lemma LoopHolds(m: Memory, p: seq<Addr>)
    requires Loop(m, p) && forall x :: x in p ==> x in m
    ensures HoldEachOther(m, set x | x in p)
  {
    var c := set x | x in p;
    forall x | x in c
      ensures HasHolder(m, c, x)
    {
      var i :| 0 <= i < |p| && p[i] == x;
      var j := if i == 0 then |p| - 2 else i - 1;
      assert p[j + 1] == x && p[j + 1] in m[p[j]].kids;
      assert p[j] in c;
    }
  }

  lemma SameLoops(m: Memory, n: Memory, handles: multiset<Addr>, next: nat)
    requires Shrunk(m, n) && Counted(n, handles, next) && HasIdleLoop(n, handles)
    ensures HasIdleLoop(m, handles)
  {
    hide InUse;
    var p :| IdleLoop(n, handles, p);
    forall x | x in p
      ensures x in m && !InUse(m, handles, x)
    {
      SameUse(m, n, handles, next, x);
    }
    assert IdleLoop(m, handles, p);
  }

  /** Looking at the memory before and the handles that are left: all that is not in use has gone,
      and nothing else, if and only if there is no cycle to which none of these handles leads. */
  lemma GoneExactly(m: Memory, n: Memory, handles: multiset<Addr>, next: nat, roots: seq<Addr>)
    requires Shrunk(m, n) && Counted(n, handles, next) && Gone(m, n, roots)
    ensures (forall x :: x in m ==> (x in n <==> InUse(m, handles, x))) <==> !HasIdleLoop(m, handles)
  {
    hide InUse;
    if p :| IdleLoop(m, handles, p) {
      LoopHolds(m, p);
      assert p[0] in set x | x in p;
      assert p[0] in n && p[0] in m && !InUse(m, handles, p[0]);
    } else {
      if HasIdleLoop(n, handles) { SameLoops(m, n, handles, next); }
      LiveUnlessLoop(n, handles, next);
      forall x | x in m
        ensures x in n <==> InUse(m, handles, x)
      {
        SameUse(m, n, handles, next, x);
      }
    }
  }

  /** Memory that differs in one value only leads to that value as before. */
  lemma {:induction false} LeadsAsBefore(m: Memory, n: Memory, obj: Addr, p: seq<Addr>)
    requires Path(n, p) && p[|p| - 1] == obj && forall x :: x in n && x != obj ==> x in m && n[x].kids == m[x].kids
    ensures Reaches(m, p[0], obj)
    decreases |p|
  {
    hide Reaches;
    if p[0] == obj {
      ReachesSelf(m, obj);
    } else {
      var q := p[1..];
      assert forall i :: 0 <= i < |q| ==> q[i] == p[i + 1];
      assert Path(n, q);
      LeadsAsBefore(m, n, obj, q);
      ReachesFrom(m, p[0], p[1], obj);
    }
  }

  /** The child of a value in memory without cycles does not lead back. */
  lemma KidLeadsAway(m: Memory, a: Addr, k: Addr)
    requires Acyclic(m) && a in m && k in m[a].kids
    ensures !Reaches(m, k, a)
  {
    var rank, top :| Ranked(m, rank, top);
    if p :| Path(m, p) && p[0] == k && p[|p| - 1] == a { RankFalls(m, rank, top, p); }
  }

  /** A value that did not lead to the object does not do so when the object holds something
      else. */
  lemma NotBack(m: Memory, n: Memory, obj: Addr, was: Addr)
    requires (forall x :: x in n && x != obj ==> x in m && n[x].kids == m[x].kids) && !Reaches(m, was, obj)
    ensures !Reaches(n, was, obj)
  {
    hide Reaches;
    if Reaches(n, was, obj) {
      var p := PathOf(n, was, obj);
      LeadsAsBefore(m, n, obj, p);
    }
  }

  lemma HoldsItself(m: Memory, a: Addr)
    requires a in m && a in m[a].kids
    ensures HoldEachOther(m, {a})
  {
    assert HasHolder(m, {a}, a);
  }

  /** Nothing holds an address that has not been given out. */
  lemma NotYetHeld(m: Memory, handles: multiset<Addr>, next: nat, a: Addr)
    requires Counted(m, handles, next) && a >= next
    ensures a !in m && forall b :: b in m ==> a !in m[b].kids
  {
    assert CountOk(m, handles, Edges(m, next), a);
    forall b | b in m
      ensures a !in m[b].kids
    {
      if a in m[b].kids { KidIsEdge(m, next, b, a); }
    }
  }

  /** A new array that holds nothing but itself stays, and nothing leads to it. */
  lemma KeepsItself(m: Memory, handles: multiset<Addr>, next: nat, a: Addr, n: Memory)
    requires Counted(m, handles, next) && a >= next
    requires Shrunk(m[a := Cell(2, Array, [a])], n) && Gone(m[a := Cell(2, Array, [a])], n, [a])
    ensures a in n && n[a].kids == [a] && !InUse(n, handles, a) && IdleLoop(n, handles, [a, a])
  {
    hide InUse;
    hide Led;
    HoldsItself(m[a := Cell(2, Array, [a])], a);
    assert a in {a};
    KidsAreLive(m, handles, next);
    NotYetHeld(m, handles, next, a);
    CycleLeaks(n, handles, a);
  }
}
