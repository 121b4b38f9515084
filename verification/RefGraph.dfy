/** The reference graph of JSON values on the heap: which references there are, and what it means
    for a value to be still in use. */
module RefGraph {
  import opened Bytes

  /** The address of a struct json; a new value gets one that was never used before. */
  type Addr = nat

  /** The type field, with the names of the members of an object. */
  datatype Shape = Scalar | Object(names: seq<Bytes>) | Array

  /** count, and the values a container refers to: one for each name, or the elements. */
  datatype Cell = Cell(count: nat, shape: Shape, kids: seq<Addr>)

  type Memory = map<Addr, Cell>

  predicate WellFormed(c: Cell) {
    match c.shape
    case Scalar => c.kids == []
    case Object(names) => |names| == |c.kids| && forall i, j :: 0 <= i < j < |names| ==> names[i] != names[j]
    case Array => true
  }

  function KidsOf(m: Memory, a: Addr): multiset<Addr> {
    if a in m then multiset(m[a].kids) else multiset{}
  }

  /** Every reference from a value with an address below `next`. */
  function Edges(m: Memory, next: nat): multiset<Addr> {
    if next == 0 then multiset{} else Edges(m, next - 1) + KidsOf(m, next - 1)
  }

  /** A live value has as many references as its count says, at least one; nothing refers to a
      value that is not live. */
  ghost predicate CountOk(m: Memory, handles: multiset<Addr>, edges: multiset<Addr>, a: Addr) {
    if a in m then m[a].count == handles[a] + edges[a] > 0 else handles[a] + edges[a] == 0
  }

  ghost predicate Counted(m: Memory, handles: multiset<Addr>, next: nat) {
    && (forall a :: a in m ==> a < next && WellFormed(m[a]))
    && (forall a: Addr :: CountOk(m, handles, Edges(m, next), a))
  }

  // ----- how the edges change

  lemma {:induction false} EdgesSame(m: Memory, n: Memory, next: nat)
    requires forall a: Addr :: a < next ==> KidsOf(m, a) == KidsOf(n, a)
    ensures Edges(m, next) == Edges(n, next)
  {
    if next > 0 { EdgesSame(m, n, next - 1); }
  }

  /** One value's references are taken out, and others put in. */
  lemma {:induction false} EdgesChange(m: Memory, n: Memory, next: nat, a: Addr, x: Addr)
    requires a < next && forall b: Addr :: b < next && b != a ==> KidsOf(m, b) == KidsOf(n, b)
    ensures Edges(n, next)[x] + KidsOf(m, a)[x] == Edges(m, next)[x] + KidsOf(n, a)[x]
  {
    hide KidsOf;
    if a == next - 1 {
      EdgesSame(m, n, next - 1);
    } else {
      EdgesChange(m, n, next - 1, a, x);
      assert KidsOf(m, next - 1) == KidsOf(n, next - 1);
    }
  }

  lemma {:induction false} EdgeHasOwner(m: Memory, next: nat, a: Addr) returns (p: Addr)
    requires a in Edges(m, next)
    ensures p < next && p in m && a in m[p].kids
  {
    if a in KidsOf(m, next - 1) { p := next - 1; } else { p := EdgeHasOwner(m, next - 1, a); }
  }

  lemma {:induction false} KidIsEdge(m: Memory, next: nat, p: Addr, a: Addr)
    requires p < next && p in m && a in m[p].kids
    ensures a in Edges(m, next)
  {
    if p < next - 1 { KidIsEdge(m, next - 1, p, a); }
  }

  // ----- reachability

  ghost predicate Path(m: Memory, p: seq<Addr>) {
    p != [] && forall i :: 0 <= i < |p| - 1 ==> p[i] in m && p[i + 1] in m[p[i]].kids
  }

  ghost predicate Reaches(m: Memory, a: Addr, b: Addr) {
    exists p :: Path(m, p) && p[0] == a && p[|p| - 1] == b
  }

  lemma ReachesSelf(m: Memory, a: Addr)
    ensures Reaches(m, a, a)
  {
    assert Path(m, [a]);
  }

  lemma ReachesFurther(m: Memory, a: Addr, b: Addr, c: Addr)
    requires Reaches(m, a, b) && b in m && c in m[b].kids
    ensures Reaches(m, a, c)
  {
    var p :| Path(m, p) && p[0] == a && p[|p| - 1] == b;
    assert Path(m, p + [c]);
  }

  lemma ReachesFrom(m: Memory, a: Addr, b: Addr, c: Addr)
    requires a in m && b in m[a].kids && Reaches(m, b, c)
    ensures Reaches(m, a, c)
  {
    var p :| Path(m, p) && p[0] == b && p[|p| - 1] == c;
    var q := [a] + p;
    assert forall i :: 0 < i < |q| ==> q[i] == p[i - 1];
    assert Path(m, q);
  }

  /** A value that is in use: some outstanding handle leads to it. */
  ghost predicate InUse(m: Memory, handles: multiset<Addr>, a: Addr) {
    exists h :: h in handles && Reaches(m, h, a)
  }

  /** No value contains itself: there is a height for every value that shrinks on the way down. */
  ghost predicate Ranked(m: Memory, rank: map<Addr, nat>, top: nat) {
    && (forall a :: a in m ==> a in rank && rank[a] <= top)
    && (forall a, k :: a in m && k in m[a].kids ==> k in rank && rank[k] < rank[a])
  }

  ghost predicate Acyclic(m: Memory) {
    exists rank, top :: Ranked(m, rank, top)
  }

  lemma {:induction false} LiveIsInUse(m: Memory, handles: multiset<Addr>, next: nat, rank: map<Addr, nat>, top: nat, a: Addr)
    requires Counted(m, handles, next) && Ranked(m, rank, top) && a in m
    ensures InUse(m, handles, a)
    decreases top - rank[a]
  {
    if a in handles {
      ReachesSelf(m, a);
    } else {
      assert CountOk(m, handles, Edges(m, next), a);
      var p := EdgeHasOwner(m, next, a);
      LiveIsInUse(m, handles, next, rank, top, p);
      var h :| h in handles && Reaches(m, h, p);
      ReachesFurther(m, h, p, a);
    }
  }

  lemma {:induction false} PathStaysLive(m: Memory, handles: multiset<Addr>, next: nat, p: seq<Addr>)
    requires Counted(m, handles, next) && Path(m, p) && p[0] in m
    ensures p[|p| - 1] in m
    decreases |p|
  {
    if |p| > 1 {
      var q := p[..|p| - 1];
      assert forall i :: 0 <= i < |q| ==> q[i] == p[i];
      assert Path(m, q);
      PathStaysLive(m, handles, next, q);
      KidIsEdge(m, next, p[|p| - 2], p[|p| - 1]);
      assert CountOk(m, handles, Edges(m, next), p[|p| - 1]);
    }
  }

  /** Without cycles the values that are live are exactly those that some handle leads to: none is
      lost, and none is gone too early. */
  lemma LiveExactlyInUse(m: Memory, handles: multiset<Addr>, next: nat, a: Addr)
    requires Counted(m, handles, next) && Acyclic(m)
    ensures a in m <==> InUse(m, handles, a)
  {
    if a in m {
      var rank, top :| Ranked(m, rank, top);
      LiveIsInUse(m, handles, next, rank, top, a);
    }
    if InUse(m, handles, a) {
      var h :| h in handles && Reaches(m, h, a);
      assert CountOk(m, handles, Edges(m, next), h);
      var p :| Path(m, p) && p[0] == h && p[|p| - 1] == a;
      PathStaysLive(m, handles, next, p);
    }
  }

  // ----- what is lost

  /** A path that ends where it began. */
  ghost predicate Loop(m: Memory, p: seq<Addr>) {
    Path(m, p) && |p| > 1 && p[0] == p[|p| - 1]
  }

  /** A cycle of live values, none of which is in use. */
  ghost predicate IdleLoop(m: Memory, handles: multiset<Addr>, p: seq<Addr>) {
    Loop(m, p) && forall x :: x in p ==> x in m && !InUse(m, handles, x)
  }

  ghost predicate HasIdleLoop(m: Memory, handles: multiset<Addr>) {
    exists p :: IdleLoop(m, handles, p)
  }

  /** From a live value that is not in use, up through values that hold it and are not in use
      either. */
  lemma {:induction false} Climb(m: Memory, handles: multiset<Addr>, next: nat, a: Addr, k: nat) returns (p: seq<Addr>)
    requires Counted(m, handles, next) && a in m && !InUse(m, handles, a)
    ensures Path(m, p) && |p| == k + 1 && p[k] == a
    ensures forall x :: x in p ==> x in m && !InUse(m, handles, x)
    decreases k
  {
    hide Reaches;
    if k == 0 {
      p := [a];
    } else {
      ReachesSelf(m, a);
      assert CountOk(m, handles, Edges(m, next), a);
      var q := EdgeHasOwner(m, next, a);
      if InUse(m, handles, q) {
        var h :| h in handles && Reaches(m, h, q);
        ReachesFurther(m, h, q, a);
      }
      p := Climb(m, handles, next, q, k - 1);
      p := p + [a];
    }
  }

  /** More steps than values: some value comes twice. */
  lemma {:induction false} Repeats(p: seq<Addr>, s: set<Addr>) returns (i: nat, j: nat)
    requires |p| > |s| && forall x :: x in p ==> x in s
    ensures i < j < |p| && p[i] == p[j]
    decreases |p|
  {
    j := |p| - 1;
    if p[j] in p[..j] {
      i :| i < j && p[i] == p[j];
    } else {
      i, j := Repeats(p[..j], s - {p[j]});
    }
  }

  lemma IdleIsLost(m: Memory, handles: multiset<Addr>, next: nat, a: Addr)
    requires Counted(m, handles, next) && a in m && !InUse(m, handles, a)
    ensures HasIdleLoop(m, handles)
  {
    hide InUse;
    var p := Climb(m, handles, next, a, |m.Keys|);
    var i, j := Repeats(p, m.Keys);
    var q := p[i..j + 1];
    assert forall k :: 0 <= k < |q| ==> q[k] == p[i + k];
    assert Path(m, q);
    assert IdleLoop(m, handles, q);
  }

  /** Some value is kept alive though no handle leads to it if and only if there is a cycle to
      which no handle leads. */
  lemma LostExactlyInLoops(m: Memory, handles: multiset<Addr>, next: nat)
    requires Counted(m, handles, next)
    ensures (exists a :: a in m && !InUse(m, handles, a)) <==> HasIdleLoop(m, handles)
  {
    hide InUse;
    if a :| a in m && !InUse(m, handles, a) {
      IdleIsLost(m, handles, next, a);
    }
    if p :| IdleLoop(m, handles, p) {
      assert p[0] in m && !InUse(m, handles, p[0]);
    }
  }

  lemma InUseIsLive(m: Memory, handles: multiset<Addr>, next: nat, a: Addr)
    requires Counted(m, handles, next) && InUse(m, handles, a)
    ensures a in m
  {
    var h :| h in handles && Reaches(m, h, a);
    assert CountOk(m, handles, Edges(m, next), h);
    var p :| Path(m, p) && p[0] == h && p[|p| - 1] == a;
    PathStaysLive(m, handles, next, p);
  }

  /** The live values are exactly those in use if and only if there is no such cycle. */
  lemma LiveUnlessLoop(m: Memory, handles: multiset<Addr>, next: nat)
    requires Counted(m, handles, next)
    ensures (forall a: Addr :: a in m <==> InUse(m, handles, a)) <==> !HasIdleLoop(m, handles)
  {
    hide InUse;
    hide HasIdleLoop;
    LostExactlyInLoops(m, handles, next);
    forall a: Addr | InUse(m, handles, a)
      ensures a in m
    {
      InUseIsLive(m, handles, next, a);
    }
  }

  lemma {:induction false} RankFalls(m: Memory, rank: map<Addr, nat>, top: nat, p: seq<Addr>)
    requires Ranked(m, rank, top) && Path(m, p) && p[0] in rank
    ensures p[|p| - 1] in rank && rank[p[|p| - 1]] + |p| <= rank[p[0]] + 1
    decreases |p|
  {
    if |p| > 1 {
      var q := p[1..];
      assert forall i :: 0 <= i < |q| ==> q[i] == p[i + 1];
      assert Path(m, q);
      RankFalls(m, rank, top, q);
    }
  }

  lemma AcyclicHasNoLoop(m: Memory, handles: multiset<Addr>)
    requires Acyclic(m)
    ensures !HasIdleLoop(m, handles)
  {
    var rank, top :| Ranked(m, rank, top);
    if p :| IdleLoop(m, handles, p) {
      assert p[0] in p;
      RankFalls(m, rank, top, p);
    }
  }

  /** A cycle keeps itself alive: a value that nothing but itself refers to is not in use. */
  lemma CycleLeaks(m: Memory, handles: multiset<Addr>, a: Addr)
    requires a in m && a in m[a].kids && a !in handles && forall b :: b in m && a in m[b].kids ==> b == a
    ensures !InUse(m, handles, a) && IdleLoop(m, handles, [a, a])
  {
    if h :| h in handles && Reaches(m, h, a) {
      var p :| Path(m, p) && p[0] == h && p[|p| - 1] == a;
      OnlyFromItself(m, a, p);
    }
    assert Path(m, [a, a]);
  }

  lemma {:induction false} OnlyFromItself(m: Memory, a: Addr, p: seq<Addr>)
    requires Path(m, p) && p[|p| - 1] == a && forall b :: b in m && a in m[b].kids ==> b == a
    ensures p[0] == a
    decreases |p|
  {
    if |p| > 1 {
      var q := p[..|p| - 1];
      assert forall i :: 0 <= i < |q| ==> q[i] == p[i];
      assert Path(m, q);
      OnlyFromItself(m, a, q);
    }
  }

  // ----- cycles do not come from nowhere

  lemma AcyclicPart(m: Memory, n: Memory)
    requires Acyclic(m) && forall a :: a in n ==> a in m && n[a].kids == m[a].kids
    ensures Acyclic(n)
  {
    var rank, top :| Ranked(m, rank, top);
    assert Ranked(n, rank, top);
  }

  /** The heights when a reference from `a` to `v` is added: what leads to `a` goes up. */
  ghost function Lifted(m: Memory, rank: map<Addr, nat>, a: Addr, v: Addr): (r: map<Addr, nat>)
    requires v in rank && forall b :: b in m ==> b in rank
    ensures forall b :: b in m ==> b in r && r[b] == rank[b] + if Reaches(m, b, a) then rank[v] + 1 else 0
  {
    map b: Addr | b in m :: rank[b] + if Reaches(m, b, a) then rank[v] + 1 else 0
  }

  /** A reference to a value that does not lead back makes no cycle. */
  lemma AcyclicPut(m: Memory, n: Memory, a: Addr, v: Addr)
    requires Acyclic(m) && a in m && v in m && !Reaches(m, v, a)
    requires n.Keys == m.Keys && forall b :: b in m && b != a ==> n[b].kids == m[b].kids
    requires forall k :: k in n[a].kids ==> k in m[a].kids || k == v
    requires forall b, k :: b in m && k in m[b].kids ==> k in m
    ensures Acyclic(n)
  {
    hide Reaches;
    var rank, top :| Ranked(m, rank, top);
    var lifted := Lifted(m, rank, a, v);
    forall b, k | b in n && k in n[b].kids
      ensures k in lifted && lifted[k] < lifted[b]
    {
      if b == a && k == v {
        ReachesSelf(m, a);
      } else {
        assert b in m && k in m[b].kids;
        if Reaches(m, k, a) { ReachesFrom(m, b, k, a); }
      }
    }
    forall b | b in n
      ensures b in lifted && lifted[b] <= 2 * top + 1
    {
      assert b in m;
    }
    assert Ranked(n, lifted, 2 * top + 1);
  }

  /** A new value can refer to old ones only. */
  lemma AcyclicNew(m: Memory, a: Addr, c: Cell)
    requires Acyclic(m) && a !in m && (forall k :: k in c.kids ==> k in m)
    requires forall b, k :: b in m && k in m[b].kids ==> k in m
    ensures Acyclic(m[a := c])
  {
    var rank, top :| Ranked(m, rank, top);
    var higher := map b | b in m.Keys + {a} :: if b == a then top + 1 else rank[b];
    assert Ranked(m[a := c], higher, top + 1);
  }

  // ----- copies

  /** No value that `a` led to in the one memory is one that `b` leads to in the other: `b` is a
      deep copy of `a`. */
  ghost predicate Apart(m: Memory, a: Addr, n: Memory, b: Addr) {
    forall x: Addr :: !(Reaches(m, a, x) && Reaches(n, b, x))
  }

  lemma FirstStep(m: Memory, p: seq<Addr>)
    requires Path(m, p)
    ensures |p| > 1 ==> p[0] in m && p[1] in m[p[0]].kids
  {
  }

  lemma SomeOfBoth(s: seq<Addr>, t: seq<Addr>)
    requires forall k :: k in s ==> k in t
    ensures s != [] ==> t != []
  {
    if s != [] { assert s[0] in t; }
  }

  lemma LeafLeadsNowhere(m: Memory, v: Addr, x: Addr)
    requires v in m && m[v].kids == []
    ensures Reaches(m, v, x) ==> v == x
  {
    if p :| Path(m, p) && p[0] == v && p[|p| - 1] == x {
      FirstStep(m, p);
    }
  }

  /** A new container of the same values is a deep copy if and only if there are none. */
  lemma ApartIfEmpty(m: Memory, handles: multiset<Addr>, next: nat, a: Addr, n: Memory, b: Addr)
    requires Counted(m, handles, next) && a in m && b !in m && b in n
    requires forall k :: k in n[b].kids <==> k in m[a].kids
    ensures Apart(m, a, n, b) <==> m[a].kids == []
  {
    hide Counted;
    if m[a].kids != [] {
      var k := m[a].kids[0];
      ReachesSelf(m, k);
      ReachesSelf(n, k);
      assert k in m[a].kids && k in n[b].kids;
      ReachesFrom(m, a, k, k);
      ReachesFrom(n, b, k, k);
    } else {
      forall x: Addr | Reaches(n, b, x)
        ensures !Reaches(m, a, x)
      {
        SomeOfBoth(n[b].kids, m[a].kids);
        LeafLeadsNowhere(n, b, x);
        if q :| Path(m, q) && q[0] == a && q[|q| - 1] == b { PathStaysLive(m, handles, next, q); }
      }
    }
  }
}
