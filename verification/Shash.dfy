/** shash.c: a table of nodes with names is a finite map from names to data, for any hash
    function. */
module Shash {
  import opened Bytes
  import opened Bits
  import opened Chains
  import opened HashGrowth
  import opened HashMap
  import HashIteration

  const NULL: Data := 0

  ghost predicate Unique(nodes: set<Node>)
    reads nodes`name
  {
    forall x, y :: x in nodes && y in nodes && x.name == y.name ==> x == y
  }

  /** The finite map that a set of nodes stands for. */
  ghost function MapOf(nodes: set<Node>): map<Bytes, Data>
    requires Unique(nodes)
    reads nodes`name, nodes`data
  {
    map x | x in nodes :: x.name := x.data
  }

  lemma MapOfMore(nodes: set<Node>, node: Node)
    requires Unique(nodes) && node !in nodes && node.name !in MapOf(nodes)
    ensures Unique(nodes + {node}) && MapOf(nodes + {node}) == MapOf(nodes)[node.name := node.data]
  {
    assert forall x :: x in nodes ==> x.name in MapOf(nodes);
  }

  lemma MapOfLess(nodes: set<Node>, node: Node)
    requires Unique(nodes) && node in nodes
    ensures Unique(nodes - {node}) && MapOf(nodes - {node}) == MapOf(nodes) - {node.name}
    ensures node.name in MapOf(nodes) && MapOf(nodes)[node.name] == node.data
  {
  }

  /** One more node keeps the names different if its name is new. */
  lemma OneMoreName(nodes: set<Node>, node: Node)
    requires Unique(nodes) && node !in nodes
    ensures Unique(nodes + {node}) <==> node.name !in MapOf(nodes)
    ensures node.name !in MapOf(nodes) ==> MapOf(nodes + {node}) == MapOf(nodes)[node.name := node.data]
  {
    assert forall x :: x in nodes ==> x.name in MapOf(nodes);
    if node.name !in MapOf(nodes) { MapOfMore(nodes, node); }
  }

  class Table {
    const hmap: Map
    /** hash_name: any function. */
    const hashName: Bytes -> nat

    /** Every node is where its name belongs; names may come twice. */
    ghost predicate Hashed()
      reads this, hmap, hmap.buckets, hmap.nodes
    {
      && hmap.Valid()
      && (forall x :: x in hmap.nodes ==> x.hash == hashName(x.name))
    }

    ghost predicate Valid()
      reads this, hmap, hmap.buckets, hmap.nodes
    {
      Hashed() && Unique(hmap.nodes)
    }

    /** The finite map. */
    ghost function Contents(): map<Bytes, Data>
      requires Valid()
      reads this, hmap, hmap.buckets, hmap.nodes
    {
      MapOf(hmap.nodes)
    }

    /** shash_init. */
    constructor (hashName: Bytes -> nat)
      ensures Valid() && Contents() == map[] && fresh(hmap) && fresh(hmap.buckets)
      ensures this.hashName == hashName
    {
      hmap := new Map();
      this.hashName := hashName;
    }

    /** shash_find__ and shash_find: the walk over the nodes of the same hash. */
    method Find(name: Bytes) returns (node: Node?)
      requires Hashed()
      ensures node == null ==> forall x :: x in hmap.nodes ==> x.name != name
      ensures node != null ==> node in hmap.nodes && node.name == name
      ensures Valid() && node == null ==> name !in Contents()
      ensures Valid() && node != null ==> name in Contents() && Contents()[name] == node.data
    {
      hide Map.Valid;
      hide Bucket;
      hide IsMask;
      var hash := hashName(name);
      hmap.BucketOf(hash);
      var b := Bucket(hash, hmap.mask);
      ghost var c := hmap.chains[b];
      ghost var k;
      node, k := HashIteration.NextWithHash(hmap.buckets[b], hash, c, b, hmap.mask);
      while node != null
        invariant k <= |c| && node == HashIteration.At(c, k)
        invariant forall i :: 0 <= i < k ==> c[i].name != name
        decreases |c| - k
      {
        if node.name == name {
          if Unique(hmap.nodes) { MapOfLess(hmap.nodes, node); }
          return;
        }
        Behind(hmap.buckets[b], c, k, b, hmap.mask);
        ghost var more;
        node, more := HashIteration.NextWithHash(node.next, hash, c[k + 1..], b, hmap.mask);
        k := k + 1 + more;
      }
      NotThere(name, b);
    }

    lemma NotThere(name: Bytes, b: nat)
      requires Hashed() && b == Bucket(hashName(name), hmap.mask) < |hmap.chains|
      requires forall i :: 0 <= i < |hmap.chains[b]| ==> hmap.chains[b][i].name != name
      ensures forall x :: x in hmap.nodes ==> x.name != name
    {
      hide Bucket;
      forall x | x in hmap.nodes
        ensures x.name != name
      {
        assert hmap.AtHome(x);
        if x in hmap.chains[b] {
          var i :| 0 <= i < |hmap.chains[b]| && hmap.chains[b][i] == x;
        }
      }
    }

    /** Its call of hmap_insert. */
    method InsertNode(node: Node)
      requires Hashed() && node !in hmap.nodes && hmap.n + 1 < Pow2(64)
      modifies hmap, hmap.buckets, hmap.nodes`hash, hmap.nodes`next, node`hash, node`next
      ensures Hashed() && hmap.n == old(hmap.n) + 1 && hmap.nodes == old(hmap.nodes) + {node}
      ensures hmap.buckets == old(hmap.buckets) || fresh(hmap.buckets)
    {
      hide Map.Valid;
      hide GrownMask;
      hmap.Sizes();
      hmap.Insert(node, hashName(node.name));
      hmap.Sizes();
    }

    /** shash_add_nocopy__: one more node, whether or not the name is there already; the table
        still stands for a finite map if it is not. */
    method Add(name: Bytes, data: Data) returns (node: Node)
      requires Hashed() && hmap.n + 1 < Pow2(64)
      modifies hmap, hmap.buckets, hmap.nodes`hash, hmap.nodes`next
      ensures Hashed() && hmap.n == old(hmap.n) + 1
      ensures fresh(node) && hmap.nodes == old(hmap.nodes) + {node} && node.name == name && node.data == data
      ensures hmap.buckets == old(hmap.buckets) || fresh(hmap.buckets)
      ensures old(Valid() && name !in Contents()) ==> Valid() && Contents() == old(Contents())[name := data]
      ensures old(Valid() && name in Contents()) ==> !Valid()
    {
      hide Table.Hashed;
      hide Unique;
      hide MapOf;
      node := new Node(name, data);
      ghost var all := hmap.nodes + {node};
      if Unique(hmap.nodes) { OneMoreName(hmap.nodes, node); }
      ghost var unique := Unique(all);
      ghost var m := if unique then MapOf(all) else map[];
      InsertNode(node);
      assert hmap.nodes == all && Unique(all) == unique && (unique ==> MapOf(all) == m);
    }

    /** shash_add_once. */
    method AddOnce(name: Bytes, data: Data) returns (added: bool)
      requires Valid() && hmap.n + 1 < Pow2(64)
      modifies hmap, hmap.buckets, hmap.nodes`hash, hmap.nodes`next
      ensures Valid() && hmap.n <= old(hmap.n) + 1
      ensures hmap.buckets == old(hmap.buckets) || fresh(hmap.buckets)
      ensures fresh(hmap.nodes - old(hmap.nodes))
      ensures added == (name !in old(Contents()))
      ensures Contents() == if added then old(Contents())[name := data] else old(Contents())
    {
      hide Map.Valid;
      hide MapOf;
      hide Unique;
      var node := Find(name);
      if node == null {
        var _ := Add(name, data);
        added := true;
      } else {
        added := false;
      }
    }

    /** `node->data = data`. */
    static method SetData(ghost nodes: set<Node>, node: Node, data: Data)
      requires Unique(nodes) && node in nodes
      modifies node`data
      ensures MapOf(nodes) == old(MapOf(nodes))[node.name := data]
    {
      hide MapOf;
      hide Unique;
      ghost var m := MapOf(nodes);
      MapOfLess(nodes, node);
      node.data := data;
      MapOfMore(nodes - {node}, node);
      assert nodes - {node} + {node} == nodes;
      assert (m - {node.name})[node.name := data] == m[node.name := data];
    }

    /** shash_replace: the old data, or null. */
    method Replace(name: Bytes, data: Data) returns (was: Data)
      requires Valid() && hmap.n + 1 < Pow2(64)
      modifies hmap, hmap.buckets, hmap.nodes`hash, hmap.nodes`next, hmap.nodes`data
      ensures Valid() && hmap.n <= old(hmap.n) + 1
      ensures hmap.buckets == old(hmap.buckets) || fresh(hmap.buckets)
      ensures fresh(hmap.nodes - old(hmap.nodes))
      ensures was == if name in old(Contents()) then old(Contents())[name] else NULL
      ensures Contents() == old(Contents())[name := data]
    {
      hide Map.Valid;
      hide Unique;
      hide MapOf;
      var node := Find(name);
      if node == null {
        var _ := Add(name, data);
        was := NULL;
      } else {
        was := node.data;
        SetData(hmap.nodes, node, data);
      }
    }

    /** shash_delete and shash_steal. */
    method Delete(node: Node)
      requires Valid() && node in hmap.nodes
      modifies hmap`n, hmap`chains, hmap`nodes, hmap.buckets, hmap.nodes`next
      ensures Valid() && Contents() == old(Contents()) - {node.name}
      ensures hmap.nodes == old(hmap.nodes) - {node} && hmap.n < old(hmap.n)
    {
      hide Map.Valid;
      hide Unique;
      hide MapOf;
      MapOfLess(hmap.nodes, node);
      hmap.Sizes();
      hmap.Remove(node);
      hmap.Sizes();
    }

    /** shash_find_and_delete: the data, or null. */
    method FindAndDelete(name: Bytes) returns (was: Data)
      requires Valid()
      modifies hmap`n, hmap`chains, hmap`nodes, hmap.buckets, hmap.nodes`next
      ensures Valid() && hmap.nodes <= old(hmap.nodes) && hmap.n <= old(hmap.n)
      ensures was == if name in old(Contents()) then old(Contents())[name] else NULL
      ensures Contents() == old(Contents()) - {name}
    {
      hide Map.Valid;
      hide MapOf;
      hide Unique;
      ghost var m := Contents();
      var node := Find(name);
      if node != null {
        was := node.data;
        Delete(node);
      } else {
        was := NULL;
        assert m - {name} == m;
      }
    }

    /** shash_find_data. */
    method FindData(name: Bytes) returns (data: Data)
      requires Valid()
      ensures data == if name in Contents() then Contents()[name] else NULL
    {
      var node := Find(name);
      data := if node != null then node.data else NULL;
    }

    /** shash_clear. */
    method Clear()
      requires Valid()
      modifies hmap`n, hmap`chains, hmap`nodes, hmap.buckets, hmap.nodes`next
      ensures Valid() && Contents() == map[] && hmap.nodes == {} && hmap.n == 0
    {
      hide Map.Valid;
      ghost var _ := HashIteration.RemoveEach(hmap);
      hmap.Sizes();
    }

    /** hmap_expand, hmap_shrink and hmap_reserve on the table of a string map. */
    method Expand()
      requires Valid() && hmap.n < Pow2(64)
      modifies hmap, hmap.nodes`hash, hmap.nodes`next
      ensures Valid() && Contents() == old(Contents()) && hmap.n == old(hmap.n) && hmap.nodes == old(hmap.nodes)
      ensures hmap.buckets == old(hmap.buckets) || fresh(hmap.buckets)
    {
      hide Map.Valid;
      hide CalcMask;
      hide MapOf;
      hide Unique;
      hmap.Sizes();
      hmap.Expand();
      hmap.Sizes();
    }

    method Shrink()
      requires Valid() && hmap.n < Pow2(64)
      modifies hmap, hmap.nodes`hash, hmap.nodes`next
      ensures Valid() && Contents() == old(Contents()) && hmap.n == old(hmap.n) && hmap.nodes == old(hmap.nodes)
      ensures hmap.buckets == old(hmap.buckets) || fresh(hmap.buckets)
    {
      hide Map.Valid;
      hide CalcMask;
      hide MapOf;
      hide Unique;
      hmap.Sizes();
      hmap.Shrink();
      hmap.Sizes();
    }

    method Reserve(capacity: nat)
      requires Valid() && capacity < Pow2(64)
      modifies hmap, hmap.nodes`hash, hmap.nodes`next
      ensures Valid() && Contents() == old(Contents()) && hmap.n == old(hmap.n) && hmap.nodes == old(hmap.nodes)
      ensures hmap.buckets == old(hmap.buckets) || fresh(hmap.buckets)
    {
      hide Map.Valid;
      hide CalcMask;
      hide MapOf;
      hide Unique;
      hmap.Sizes();
      hmap.Reserve(capacity);
      hmap.Sizes();
    }

    /** shash_count. */
    method Count() returns (count: nat)
      requires Valid()
      ensures count == |Contents()|
    {
      CountIsSize();
      count := hmap.n;
    }

    lemma CountIsSize()
      requires Valid()
      ensures |Contents()| == hmap.n
    {
      hide Map.Valid;
      hmap.Sizes();
      MapOfSize(hmap.nodes);
    }
  }

  lemma {:induction false} MapOfSize(nodes: set<Node>)
    requires Unique(nodes)
    ensures |MapOf(nodes)| == |nodes|
    decreases |nodes|
  {
    if nodes != {} {
      var node :| node in nodes;
      MapOfLess(nodes, node);
      MapOfSize(nodes - {node});
      var m := MapOf(nodes);
      assert m == (m - {node.name})[node.name := node.data];
    }
  }

  ghost predicate Named(s: seq<Node>, m: map<Bytes, Data>)
    reads s`name
  {
    forall x :: x in s ==> x.name in m
  }

  lemma NamedMore(s: seq<Node>, k: nat, m: map<Bytes, Data>)
    requires k < |s| && Named(s[..k], m) && s[k].name in m
    ensures Named(s[..k + 1], m)
  {
    assert s[..k + 1] == s[..k] + [s[k]];
  }

  /** The loop of shash_equal_keys: every name of `a` is looked up in `b`. */
  method KeysWithin(a: Table, b: Table) returns (within: bool)
    requires a.Valid() && b.Valid()
    ensures within == (a.Contents().Keys <= b.Contents().Keys)
  {
    hide Map.Valid;
    hide Unique;
    hide MapOf;
    hide Flatten;
    ghost var k, order, m := 0, a.hmap.Order(), b.Contents();
    a.hmap.OrderIsNodes();
    var node := HashIteration.First(a.hmap);
    while node != null
      invariant k <= |order| && node == HashIteration.At(order, k)
      invariant Named(order[..k], m)
      decreases |order| - k
    {
      assert node in a.hmap.nodes;
      var found := b.Find(node.name);
      if found == null {
        MapOfLess(a.hmap.nodes, node);
        return false;
      }
      NamedMore(order, k, m);
      node := HashIteration.Next(a.hmap, node, k);
      k := k + 1;
    }
    assert order[..k] == order;
    AllKeys(a.hmap.nodes, m);
    return true;
  }

  /** shash_equal_keys. */
  method EqualKeys(a: Table, b: Table) returns (equal: bool)
    requires a.Valid() && b.Valid()
    ensures equal == (a.Contents().Keys == b.Contents().Keys)
  {
    hide Map.Valid;
    hide Unique;
    hide MapOf;
    a.CountIsSize();
    b.CountIsSize();
    if a.hmap.n != b.hmap.n {
      return false;
    }
    equal := KeysWithin(a, b);
    if equal { SubsetSameSize(a.Contents().Keys, b.Contents().Keys); }
  }

  lemma AllKeys(nodes: set<Node>, m: map<Bytes, Data>)
    requires Unique(nodes) && forall x :: x in nodes ==> x.name in m
    ensures MapOf(nodes).Keys <= m.Keys
  {
  }

  // ----- sorting

  ghost predicate ByName(s: seq<Node>)
    reads s`name
  {
    forall i, j :: 0 <= i < j < |s| ==> AtMost(s[i].name, s[j].name)
  }

  /** One step of a sort by compare_nodes_by_name. */
  method InsertByName(s: seq<Node>, node: Node) returns (r: seq<Node>)
    requires ByName(s)
    ensures ByName(r) && multiset(r) == multiset(s) + multiset{node}
  {
    var i := 0;
    while i < |s| && AtMost(s[i].name, node.name)
      invariant i <= |s| && forall j :: 0 <= j < i ==> AtMost(s[j].name, node.name)
    {
      i := i + 1;
    }
    r := s[..i] + [node] + s[i..];
    assert s == s[..i] + s[i..];
    forall j | i <= j < |s|
      ensures AtMost(node.name, s[j].name)
    {
      AtMostTotal(node.name, s[i].name);
      if i < j { AtMostTransitive(node.name, s[i].name, s[j].name); }
    }
  }

  /** shash_sort: the nodes in the order of their names.  (qsort is taken as any sort.) */
  method Sort(t: Table) returns (nodes: seq<Node>)
    requires t.Valid()
    ensures ByName(nodes) && multiset(nodes) == multiset(t.hmap.Order())
  {
    hide AtMost;
    nodes := [];
    var visited := HashIteration.ForEach(t.hmap);
    var i := 0;
    while i < |visited|
      invariant i <= |visited| && ByName(nodes) && multiset(nodes) == multiset(visited[..i])
    {
      assert visited[..i + 1] == visited[..i] + [visited[i]];
      nodes := InsertByName(nodes, visited[i]);
      i := i + 1;
    }
    assert visited[..i] == visited;
  }

  // ----- any run of operations

  datatype Op =
    | AddOnce(name: Bytes, data: Data)
    | Replace(name: Bytes, data: Data)
    | Find(name: Bytes)
    | Delete(name: Bytes)
    | Clear
    | Expand
    | Shrink
    | Reserve(capacity: nat)

  datatype Answer = Added(yes: bool) | Got(data: Data) | Nothing

  /** What an operation does to the finite map, and what it answers. */
  function Apply(m: map<Bytes, Data>, op: Op): (map<Bytes, Data>, Answer) {
    match op
    case AddOnce(name, data) => (if name in m then m else m[name := data], Added(name !in m))
    case Replace(name, data) => (m[name := data], Got(if name in m then m[name] else NULL))
    case Find(name) => (m, Got(if name in m then m[name] else NULL))
    case Delete(name) => (m - {name}, Got(if name in m then m[name] else NULL))
    case Clear => (map[], Nothing)
    case _ => (m, Nothing)
  }

  function ApplyAll(m: map<Bytes, Data>, ops: seq<Op>): (map<Bytes, Data>, seq<Answer>)
    decreases |ops|
  {
    if ops == [] then (m, [])
    else
      var (n, a) := Apply(m, ops[0]);
      var (last, answers) := ApplyAll(n, ops[1..]);
      (last, [a] + answers)
  }

  lemma ApplyNone(m: map<Bytes, Data>)
    ensures ApplyAll(m, []) == (m, [])
  {
  }

  lemma {:induction false} ApplyOneMore(m: map<Bytes, Data>, ops: seq<Op>, op: Op)
    ensures var (n, answers) := ApplyAll(m, ops);
            var (last, a) := Apply(n, op);
            ApplyAll(m, ops + [op]) == (last, answers + [a])
    decreases |ops|
  {
    if ops == [] {
      assert ops + [op] == [op] && [op][1..] == ops;
      assert [Apply(m, op).1] + [] == [] + [Apply(m, op).1];
    } else {
      assert (ops + [op])[0] == ops[0] && (ops + [op])[1..] == ops[1..] + [op];
      hide Apply;
      var (n, a) := Apply(m, ops[0]);
      ApplyOneMore(n, ops[1..], op);
      var (k, answers) := ApplyAll(n, ops[1..]);
      assert [a] + (answers + [Apply(k, op).1]) == ([a] + answers) + [Apply(k, op).1];
    }
  }

  /** One operation on the table. */
  method Perform(t: Table, op: Op) returns (answer: Answer)
    requires t.Valid() && t.hmap.n + 1 < Pow2(64) && (op.Reserve? ==> op.capacity < Pow2(64))
    modifies t.hmap, t.hmap.buckets, t.hmap.nodes`hash, t.hmap.nodes`next, t.hmap.nodes`data
    ensures t.Valid() && t.hmap.n <= old(t.hmap.n) + 1
    ensures t.hmap.buckets == old(t.hmap.buckets) || fresh(t.hmap.buckets)
    ensures fresh(t.hmap.nodes - old(t.hmap.nodes))
    ensures (t.Contents(), answer) == Apply(old(t.Contents()), op)
  {
    hide Map.Valid;
    hide MapOf;
    hide Unique;
    answer := Nothing;
    match op {
      case AddOnce(name, data) =>
        var added := t.AddOnce(name, data);
        answer := Added(added);
      case Replace(name, data) =>
        var was := t.Replace(name, data);
        answer := Got(was);
      case Find(name) =>
        var data := t.FindData(name);
        answer := Got(data);
      case Delete(name) =>
        var was := t.FindAndDelete(name);
        answer := Got(was);
      case Clear => t.Clear();
      case Expand => t.Expand();
      case Shrink => t.Shrink();
      case Reserve(capacity) => t.Reserve(capacity);
    }
  }

  /** Over any run of operations the table answers as the finite map does, whatever the hash
      function, and ends up standing for the same map. */
  method PerformAll(t: Table, ops: seq<Op>) returns (answers: seq<Answer>)
    requires t.Valid() && t.hmap.n + |ops| + 1 < Pow2(64)
    requires forall i :: 0 <= i < |ops| && ops[i].Reserve? ==> ops[i].capacity < Pow2(64)
    modifies t.hmap, t.hmap.buckets, t.hmap.nodes`hash, t.hmap.nodes`next, t.hmap.nodes`data
    ensures t.Valid()
    ensures (t.Contents(), answers) == ApplyAll(old(t.Contents()), ops)
  {
    hide Apply;
    hide ApplyAll;
    hide Table.Valid;
    hide Table.Contents;
    answers := [];
    var i := 0;
    ghost var start := t.Contents();
    assert ops[..0] == [];
    ApplyNone(start);
    while i < |ops|
      invariant i <= |ops| && t.Valid() && t.hmap.n <= old(t.hmap.n) + i
      invariant t.hmap.buckets == old(t.hmap.buckets) || fresh(t.hmap.buckets)
      invariant fresh(t.hmap.nodes - old(t.hmap.nodes))
      invariant (t.Contents(), answers) == ApplyAll(start, ops[..i])
    {
      ApplyOneMore(start, ops[..i], ops[i]);
      assert ops[..i + 1] == ops[..i] + [ops[i]];
      var answer := Perform(t, ops[i]);
      answers := answers + [answer];
      i := i + 1;
    }
    assert ops[..i] == ops;
  }
}
