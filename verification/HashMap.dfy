/** hmap.h and hmap.c: a table of chained buckets, its nodes linked through their `next` fields.
    The ghost fields hold what the pointers amount to: each chain as a list, and the set of all
    nodes. */
module HashMap {
  import opened Bytes
  import opened Bits
  import opened Chains
  import opened HashGrowth

  /** What a `void *` points to; 0 is the null pointer. */
  type Data = nat

  /** struct shash_node with the struct hmap_node inside it. */
  class Node {
    var hash: nat
    var next: Node?
    var name: Bytes
    var data: Data

    constructor (name: Bytes, data: Data)
      ensures this.name == name && this.data == data
    {
      this.name, this.data := name, data;
      hash, next := 0, null;
    }
  }

  ghost function Head(c: seq<Node>): Node? {
    if c == [] then null else c[0]
  }

  /** Node j of a list is linked to the next one, or the last one to `end`, and belongs to bucket
      `b`. */
  ghost predicate LinkOk(c: seq<Node>, j: nat, end: Node?, b: nat, mask: nat)
    requires j < |c|
    reads c`next, c`hash
  {
    c[j].next == (if j + 1 < |c| then c[j + 1] else end) && Bucket(c[j].hash, mask) == b
  }

  ghost predicate Segment(c: seq<Node>, end: Node?, b: nat, mask: nat)
    reads c`next, c`hash
  {
    Distinct(c) && forall j :: 0 <= j < |c| ==> LinkOk(c, j, end, b, mask)
  }

  lemma SegmentSplit(p: seq<Node>, s: seq<Node>, end: Node?, b: nat, mask: nat)
    requires Segment(p + s, end, b, mask)
    ensures Segment(p, if s == [] then end else s[0], b, mask) && Segment(s, end, b, mask)
    ensures forall x :: x in p ==> x !in s
  {
    hide Bucket;
    var c, next := p + s, if s == [] then end else s[0];
    assert forall j :: 0 <= j < |p| ==> p[j] == c[j];
    assert forall j :: 0 <= j < |s| ==> s[j] == c[|p| + j];
    forall j | 0 <= j < |p|
      ensures LinkOk(p, j, next, b, mask)
    {
      assert LinkOk(c, j, end, b, mask);
    }
    forall j | 0 <= j < |s|
      ensures LinkOk(s, j, end, b, mask)
    {
      assert LinkOk(c, |p| + j, end, b, mask);
    }
    assert Distinct(s) by {
      forall i, j | 0 <= i < j < |s|
        ensures s[i] != s[j]
      {
        assert c[|p| + i] != c[|p| + j];
      }
    }
    forall i, j | 0 <= i < |p| && 0 <= j < |s|
      ensures p[i] != s[j]
    {
      assert c[i] != c[|p| + j];
    }
  }

  lemma SegmentJoin(p: seq<Node>, s: seq<Node>, end: Node?, b: nat, mask: nat)
    requires Segment(p, if s == [] then end else s[0], b, mask) && Segment(s, end, b, mask)
    requires forall x :: x in p ==> x !in s
    ensures Segment(p + s, end, b, mask)
  {
    hide Bucket;
    var c, next := p + s, if s == [] then end else s[0];
    DistinctConcat(p, s);
    forall j | 0 <= j < |c|
      ensures LinkOk(c, j, end, b, mask)
    {
      if j < |p| {
        assert LinkOk(p, j, next, b, mask);
      } else {
        assert LinkOk(s, j - |p|, end, b, mask);
      }
    }
  }

  ghost predicate Within(c: seq<Node>, nodes: set<Node>) {
    forall x :: x in c ==> x in nodes
  }

  lemma WithinCons(c: seq<Node>, nodes: set<Node>, node: Node)
    requires Within(c, nodes)
    ensures Within([node] + c, nodes + {node}) && Within(c, nodes + {node})
  {
  }

  /** A bucket with its chain: it ends, repeats no node, and its nodes belong there. */
  ghost predicate Chain(first: Node?, c: seq<Node>, b: nat, mask: nat)
    reads c`next, c`hash
  {
    first == Head(c) && Segment(c, null, b, mask)
  }

  lemma ChainHas(first: Node?, c: seq<Node>, b: nat, mask: nat)
    requires Chain(first, c, b, mask)
    ensures if first == null then c == [] else first in c
  {
  }

  lemma HashTells(first: Node?, c: seq<Node>, b: nat, mask: nat, x: Node)
    requires Chain(first, c, b, mask) && x in c
    ensures Bucket(x.hash, mask) == b
  {
    hide Bucket;
    var j :| 0 <= j < |c| && c[j] == x;
    assert LinkOk(c, j, null, b, mask);
  }

  lemma ChainCons(node: Node, c: seq<Node>, b: nat, mask: nat)
    requires Chain(node.next, c, b, mask) && node !in c && Bucket(node.hash, mask) == b
    ensures Chain(node, [node] + c, b, mask)
  {
    assert LinkOk([node], 0, Head(c), b, mask);
    SegmentJoin([node], c, null, b, mask);
  }

  /** A chain taken apart around one of its nodes: what is before the link that leads to it, the
      node whose link that is (none, if it is the bucket), and what is behind it. */
  lemma TakeApart(c: seq<Node>, at: nat, b: nat, mask: nat)
    requires at < |c| && Segment(c, null, b, mask)
    ensures var node, s := c[at], c[at + 1..];
            && Segment(s, null, b, mask) && node.next == Head(s) && node !in s && node !in c[..at]
            && Bucket(node.hash, mask) == b
            && (at > 0 ==>
                  var q, last := c[..at - 1], c[at - 1];
                  && Segment(q, last, b, mask) && Bucket(last.hash, mask) == b && last != node
                  && last !in q && last !in s && forall x :: x in q ==> x !in s && x != node)
  {
    hide Bucket;
    var node, s := c[at], c[at + 1..];
    assert c == c[..at] + ([node] + s);
    SegmentSplit(c[..at], [node] + s, null, b, mask);
    SegmentSplit([node], s, null, b, mask);
    assert LinkOk([node], 0, Head(s), b, mask);
    assert node in [node] + s;
    assert node in [node];
    if at > 0 {
      var q, last := c[..at - 1], c[at - 1];
      assert c[..at] == q + [last];
      assert last in c[..at] && last in [last];
      SegmentSplit(q, [last], node, b, mask);
      assert LinkOk([last], 0, node, b, mask);
      forall x | x in q
        ensures x !in s && x != node
      {
        assert x in c[..at] && x !in [node] + s;
      }
    }
  }

  /** And put together again, with `t` behind the link. */
  lemma PutTogether(q: seq<Node>, last: Node, t: seq<Node>, b: nat, mask: nat)
    requires Segment(q, last, b, mask) && Segment(t, null, b, mask)
    requires last.next == Head(t) && Bucket(last.hash, mask) == b
    requires last !in q && last !in t && forall x :: x in q ==> x !in t
    ensures Segment(q + [last] + t, null, b, mask)
  {
    assert LinkOk([last], 0, Head(t), b, mask);
    SegmentJoin([last], t, null, b, mask);
    SegmentJoin(q, [last] + t, null, b, mask);
    assert q + ([last] + t) == q + [last] + t;
  }

  lemma ChainFirst(first: Node, c: seq<Node>, b: nat, mask: nat)
    requires Chain(first, c, b, mask)
    ensures c != [] && c == [first] + c[1..] && first !in c[1..]
    ensures Chain(first.next, c[1..], b, mask) && Bucket(first.hash, mask) == b
  {
    TakeApart(c, 0, b, mask);
  }

  lemma Behind(first: Node?, c: seq<Node>, at: nat, b: nat, mask: nat)
    requires Chain(first, c, b, mask) && at < |c|
    ensures Chain(c[at].next, c[at + 1..], b, mask) && Bucket(c[at].hash, mask) == b
    ensures c[at] !in c[..at] && c[at] !in c[at + 1..] && forall x :: x in c[..at] ==> x !in c[at + 1..]
  {
    hide Bucket;
    TakeApart(c, at, b, mask);
    if at > 0 { assert c[..at] == c[..at - 1] + [c[at - 1]]; }
  }

  lemma NotInSlices(c: seq<Node>, at: nat, x: Node)
    requires at < |c| && x !in c
    ensures x != c[at] && x !in c[..at] && x !in c[at + 1..]
    ensures at > 0 ==> x != c[at - 1] && x !in c[..at - 1]
  {
  }

  class Map {
    var buckets: array<Node?>
    var mask: nat
    var n: nat
    ghost var chains: seq<seq<Node>>
    ghost var nodes: set<Node>
    ghost var moved: nat             // nodes that resizes have put into another array

    /** A node is in the chain of its hash. */
    ghost predicate AtHome(node: Node)
      reads `mask, `chains, node`hash
    {
      Bucket(node.hash, mask) < |chains| && node in chains[Bucket(node.hash, mask)]
    }

    ghost predicate Valid()
      reads `buckets, `mask, `n, `chains, `nodes, buckets, nodes`next, nodes`hash
    {
      && IsMask(mask) && buckets.Length == |chains| == mask + 1
      && n == |nodes|
      && (forall i :: 0 <= i < |chains| ==> Within(chains[i], nodes))
      && (forall i :: 0 <= i < |chains| ==> Chain(buckets[i], chains[i], i, mask))
      && (forall node :: node in nodes ==> AtHome(node))
    }

    /** The order of iteration. */
    ghost function Order(): seq<Node>
      reads this
    {
      Flatten(chains)
    }

    /** hmap_init. */
    constructor ()
      ensures Valid() && fresh(buckets) && mask == 0 && n == moved == 0 && nodes == {} && Order() == []
    {
      buckets := new Node?[1](_ => null);
      mask, n := 0, 0;
      chains, nodes, moved := [[]], {}, 0;
      new;
      assert Pow2(0) == 1;
    }

    /** Every node is walked exactly once. */
    lemma OrderIsNodes()
      requires Valid()
      ensures Distinct(Order()) && |Order()| == n == |nodes|
      ensures forall node :: node in Order() <==> node in nodes
    {
      hide Bucket;
      forall i | 0 <= i < |chains|
        ensures Distinct(chains[i])
      {
        assert Chain(buckets[i], chains[i], i, mask);
      }
      forall i, j, x | 0 <= i < j < |chains| && x in chains[i]
        ensures x !in chains[j]
      {
        HashTells(buckets[i], chains[i], i, mask, x);
        if x in chains[j] { HashTells(buckets[j], chains[j], j, mask, x); }
      }
      FlattenDistinct(chains);
      forall node
        ensures node in Order() <==> node in nodes
      {
        FlattenMember(chains, node);
        if node in nodes { assert AtHome(node); }
        if i :| 0 <= i < |chains| && node in chains[i] { assert Within(chains[i], nodes); }
      }
      DistinctSize(Order(), nodes);
    }

    lemma Outside(node: Node)
      requires Valid() && node !in nodes
      ensures forall i :: 0 <= i < |chains| ==> node !in chains[i]
    {
      forall i | 0 <= i < |chains|
        ensures node !in chains[i]
      {
        assert Within(chains[i], nodes);
      }
    }

    /** A node is in one chain only, because it has one hash. */
    lemma OnlyIn(b: nat, x: Node)
      requires Valid() && b < |chains| && x in chains[b]
      ensures x in nodes && forall i :: 0 <= i < |chains| && i != b ==> x !in chains[i]
    {
      HashTells(buckets[b], chains[b], b, mask, x);
      assert Within(chains[b], nodes);
      forall i | 0 <= i < |chains| && i != b
        ensures x !in chains[i]
      {
        if x in chains[i] { HashTells(buckets[i], chains[i], i, mask, x); }
      }
    }

    /** From the chains before to those after an insertion. */
    lemma Inserted(node: Node, b: nat, was: seq<seq<Node>>, had: set<Node>)
      requires IsMask(mask) && buckets.Length == |chains| == |was| == mask + 1 && b < |was|
      requires chains == was[b := [node] + was[b]] && nodes == had + {node} && node !in had && n == |had| + 1
      requires forall i :: 0 <= i < |chains| ==> Chain(buckets[i], chains[i], i, mask)
      requires forall i :: 0 <= i < |was| ==> Within(was[i], had)
      requires forall x :: x in had ==> Bucket(x.hash, mask) < |was| && x in was[Bucket(x.hash, mask)]
      requires Bucket(node.hash, mask) == b
      ensures Valid()
    {
      hide Bucket;
      hide IsMask;
      hide Chain;
      forall i | 0 <= i < |chains|
        ensures Within(chains[i], nodes)
      {
        WithinCons(was[i], had, node);
      }
      forall x | x in nodes
        ensures AtHome(x)
      {
        assert x != node ==> x in had;
      }
    }

    /** hmap_insert_fast. */
    method InsertFast(node: Node, hash: nat)
      requires Valid() && node !in nodes
      modifies this`n, this`chains, this`nodes, buckets, node`hash, node`next
      ensures Valid()
      ensures node.hash == hash && nodes == old(nodes) + {node}
      ensures var b := Bucket(hash, mask);
              b < |old(chains)| && chains == old(chains)[b := [node] + old(chains[b])]
    {
      hide Bucket;
      hide IsMask;
      hide Chain;
      hide Within;
      BucketBound(hash, mask);
      var b := Bucket(hash, mask);
      ghost var c := chains[b];
      assert Chain(buckets[b], c, b, mask) && Within(c, nodes);
      Outside(node);
      node.hash := hash;
      node.next := buckets[b];
      ChainCons(node, c, b, mask);
      buckets[b] := node;
      n := n + 1;
      chains := chains[b := [node] + c];
      nodes := nodes + {node};
      Inserted(node, b, old(chains), old(nodes));
    }

    /** The bucket of a node that is in the table, and its number in the chain. */
    ghost function Place(node: Node): (p: (nat, nat))
      requires Valid() && node in nodes
      reads this, buckets, nodes`next, nodes`hash
      ensures p.0 == Bucket(node.hash, mask) < |chains|
      ensures p.1 < |chains[p.0]| && chains[p.0][p.1] == node
    {
      assert AtHome(node);
      var c := chains[Bucket(node.hash, mask)];
      var j :| 0 <= j < |c| && c[j] == node;
      (Bucket(node.hash, mask), j)
    }

    /** The walk of hmap_remove and hmap_replace to the link that leads to the node: null for the
        one in the bucket, or else the node whose `next` it is. */
    method LinkTo(node: Node) returns (bucket: nat, before: Node?)
      requires Valid() && node in nodes
      ensures var (b, j) := Place(node);
              bucket == b && before == if j == 0 then null else chains[b][j - 1]
    {
      hide Bucket;
      ghost var (b, at) := Place(node);
      ghost var c := chains[b];
      assert Chain(buckets[b], c, b, mask);
      bucket := Bucket(node.hash, mask);
      before := null;
      var current := buckets[bucket];
      ghost var j := 0;
      while current != node
        invariant j <= at && current == c[j]
        invariant before == if j == 0 then null else c[j - 1]
        decreases at - j
      {
        assert LinkOk(c, j, null, b, mask);
        before := current;
        current := current.next;
        j := j + 1;
      }
    }

    /** The link that leads to a node, in the bucket or in the node before it, is made to lead to
        `target`, with `t` as the rest of the chain. */
    method Relink(before: Node?, bucket: nat, target: Node?, ghost at: nat, ghost t: seq<Node>)
      requires bucket < |chains| == buckets.Length && at < |chains[bucket]|
      requires Chain(buckets[bucket], chains[bucket], bucket, mask)
      requires before == if at == 0 then null else chains[bucket][at - 1]
      requires Chain(target, t, bucket, mask)
      requires forall x :: x in chains[bucket][..at] ==> x !in t
      modifies buckets
      modifies if before == null then {} else {before}`next
      ensures Chain(buckets[bucket], chains[bucket][..at] + t, bucket, mask)
      ensures forall i :: 0 <= i < buckets.Length && i != bucket ==> buckets[i] == old(buckets[i])
    {
      hide Bucket;
      hide Segment;
      ghost var c := chains[bucket];
      TakeApart(c, at, bucket, mask);
      if before == null {
        buckets[bucket] := target;
        assert c[..at] + t == t;
      } else {
        assert before in c[..at];
        before.next := target;
        assert forall x :: x in c[..at - 1] ==> x in c[..at];
        PutTogether(c[..at - 1], before, t, bucket, mask);
        assert c[..at] + t == c[..at - 1] + [before] + t;
      }
    }

    /** hmap_remove: the link that leads to the node is made to lead past it. */
    method Remove(node: Node)
      requires Valid() && node in nodes
      modifies this`n, this`chains, this`nodes, buckets, nodes`next
      ensures Valid()
      ensures nodes == old(nodes) - {node} && node.next == old(node.next)
      ensures var (b, j) := old(Place(node));
              chains == old(chains)[b := old(chains[b][..j] + chains[b][j + 1..])]
    {
      hide Bucket;
      hide IsMask;
      hide Chain;
      hide LinkOk;
      hide Within;
      ghost var (b, at) := Place(node);
      ghost var c := chains[b];
      assert Chain(buckets[b], c, b, mask);
      Behind(buckets[b], c, at, b, mask);
      var bucket, before := LinkTo(node);
      if before != null { OnlyIn(b, before); }
      Relink(before, bucket, node.next, at, c[at + 1..]);
      n := n - 1;
      nodes := nodes - {node};
      chains := chains[b := c[..at] + c[at + 1..]];
      Removed(node, b, at, old(chains), old(nodes));
    }

    lemma Removed(node: Node, b: nat, at: nat, was: seq<seq<Node>>, had: set<Node>)
      requires IsMask(mask) && buckets.Length == |chains| == |was| == mask + 1
      requires b < |was| && at < |was[b]| && was[b][at] == node && node !in was[b][..at] && node !in was[b][at + 1..]
      requires chains == was[b := was[b][..at] + was[b][at + 1..]]
      requires nodes == had - {node} && node in had && n == |had| - 1
      requires forall i :: 0 <= i < |chains| ==> Chain(buckets[i], chains[i], i, mask)
      requires forall i :: 0 <= i < |was| ==> Within(was[i], had)
      requires forall x :: x in had ==> Bucket(x.hash, mask) < |was| && x in was[Bucket(x.hash, mask)]
      requires Bucket(node.hash, mask) == b
      ensures Valid()
    {
      hide Bucket;
      hide IsMask;
      hide Chain;
      forall i | 0 <= i < |chains|
        ensures Within(chains[i], nodes)
      {
        assert Within(was[i], had);
        if i != b && node in chains[i] { HashTells(buckets[i], chains[i], i, mask, node); }
      }
      forall x | x in nodes
        ensures AtHome(x)
      {
        assert x in had;
      }
    }

    /** hmap_replace: the new node takes the place of the old one. */
    method Replace(node: Node, other: Node)
      requires Valid() && node in nodes && other !in nodes
      modifies this`chains, this`nodes, buckets, nodes`next, other`hash, other`next
      ensures Valid()
      ensures nodes == old(nodes) - {node} + {other} && other.hash == node.hash
      ensures var (b, j) := old(Place(node));
              chains == old(chains)[b := old(chains[b][..j] + [other] + chains[b][j + 1..])]
    {
      hide Bucket;
      hide IsMask;
      hide Chain;
      hide LinkOk;
      hide Within;
      ghost var (b, at) := Place(node);
      ghost var c := chains[b];
      ghost var t := [other] + c[at + 1..];
      assert Chain(buckets[b], c, b, mask);
      Behind(buckets[b], c, at, b, mask);
      Outside(other);
      NotInSlices(c, at, other);
      var bucket, before := LinkTo(node);
      if before != null { OnlyIn(b, before); }
      other.hash := node.hash;
      other.next := node.next;
      ChainCons(other, c[at + 1..], b, mask);
      Relink(before, bucket, other, at, t);
      assert c[..at] + [other] + c[at + 1..] == c[..at] + t;
      nodes := nodes - {node} + {other};
      chains := chains[b := c[..at] + [other] + c[at + 1..]];
      Replaced(node, other, b, at, old(chains), old(nodes));
    }

    lemma Replaced(node: Node, other: Node, b: nat, at: nat, was: seq<seq<Node>>, had: set<Node>)
      requires IsMask(mask) && buckets.Length == |chains| == |was| == mask + 1
      requires b < |was| && at < |was[b]| && was[b][at] == node && node !in was[b][..at] && node !in was[b][at + 1..]
      requires chains == was[b := was[b][..at] + [other] + was[b][at + 1..]]
      requires nodes == had - {node} + {other} && node in had && other !in had && n == |had|
      requires forall i :: 0 <= i < |chains| ==> Chain(buckets[i], chains[i], i, mask)
      requires forall i :: 0 <= i < |was| ==> Within(was[i], had)
      requires forall x :: x in had ==> Bucket(x.hash, mask) < |was| && x in was[Bucket(x.hash, mask)]
      requires Bucket(node.hash, mask) == b && other.hash == node.hash
      ensures Valid()
    {
      hide Bucket;
      hide IsMask;
      hide Chain;
      forall i | 0 <= i < |chains|
        ensures Within(chains[i], nodes)
      {
        assert Within(was[i], had);
        if i != b && node in chains[i] { HashTells(buckets[i], chains[i], i, mask, node); }
      }
      forall x | x in nodes
        ensures AtHome(x)
      {
        assert x != other ==> x in had;
      }
    }

    // ----- growing and shrinking

    /** One turn of the inner loop of resize: the first node of a chain is put into `tmp`. */
    static method MoveFirst(node: Node, ghost c: seq<Node>, ghost b: nat, ghost m: nat, tmp: Map) returns (next: Node?)
      requires Chain(node, c, b, m) && tmp.Valid() && node !in tmp.nodes
      modifies tmp`n, tmp`chains, tmp`nodes, tmp`moved, tmp.buckets, node`hash, node`next
      ensures c != [] && c[0] == node && node !in c[1..] && Chain(next, c[1..], b, m)
      ensures tmp.Valid() && tmp.nodes == old(tmp.nodes) + {node}
      ensures tmp.moved == old(tmp.moved) + 1 && tmp.n == old(tmp.n) + 1
      ensures node.hash == old(node.hash)
    {
      hide Bucket;
      hide Chain;
      hide Map.Valid;
      ChainFirst(node, c, b, m);
      next := node.next;
      tmp.Sizes();
      tmp.InsertFast(node, node.hash);
      tmp.Sizes();
      tmp.moved := tmp.moved + 1;
    }

    /** The inner loop of resize. */
    static method MoveChain(first: Node?, ghost c: seq<Node>, ghost b: nat, ghost m: nat, tmp: Map)
      requires Chain(first, c, b, m)
      requires tmp.Valid() && (forall x :: x in c ==> x !in tmp.nodes) && tmp.moved == tmp.n
      modifies tmp`n, tmp`chains, tmp`nodes, tmp`moved, tmp.buckets, c`hash, c`next
      ensures tmp.Valid() && tmp.nodes == old(tmp.nodes) + (set x | x in c) && tmp.moved == tmp.n
      ensures forall x :: x in c ==> x.hash == old(x.hash)
    {
      hide Chain;
      hide Map.Valid;
      var node := first;
      ghost var all := set x | x in c;
      ghost var rest, left := c, all;
      while node != null
        invariant Chain(node, rest, b, m)
        invariant (forall x :: x in left <==> x in rest) && left <= all
        invariant tmp.Valid() && tmp.nodes == old(tmp.nodes) + (all - left) && tmp.moved == tmp.n
        invariant forall x :: x in c ==> x.hash == old(x.hash)
        decreases |rest|
      {
        ChainHas(node, rest, b, m);
        var next := MoveFirst(node, rest, b, m, tmp);
        left := left - {node};
        rest := rest[1..];
        node := next;
      }
      ChainHas(node, rest, b, m);
    }

    /** An empty table of any size. */
    constructor OfSize(mask: nat)
      requires IsMask(mask)
      ensures Valid() && fresh(buckets) && this.mask == mask && nodes == {} && moved == 0
    {
      buckets := new Node?[mask + 1](_ => null);
      this.mask, n := mask, 0;
      chains, nodes, moved := seq(mask + 1, _ => []), {}, 0;
    }

    /** A node is in the chain of its hash, and in no other. */
    lemma Homes()
      requires Valid()
      ensures forall i :: 0 <= i < |chains| ==> Within(chains[i], nodes) && Chain(buckets[i], chains[i], i, mask)
      ensures forall x, i :: x in nodes && 0 <= i < |chains| ==> (x in chains[i] <==> Bucket(x.hash, mask) == i)
      ensures forall x :: x in nodes ==> Bucket(x.hash, mask) <= mask
    {
      hide Bucket;
      forall x, i | x in nodes && 0 <= i < |chains|
        ensures x in chains[i] <==> Bucket(x.hash, mask) == i
      {
        assert AtHome(x);
        if x in chains[i] { HashTells(buckets[i], chains[i], i, mask, x); }
      }
      forall x | x in nodes
        ensures Bucket(x.hash, mask) <= mask
      {
        assert AtHome(x);
      }
    }

    /** Half-way through resize: the chains from number i on are still in place, and the nodes of
        the others are in `tmp`. */
    ghost predicate Moving(i: nat, tmp: Map)
      reads this, buckets, nodes`next, nodes`hash, tmp
    {
      && tmp != this && tmp.buckets != buckets
      && buckets.Length == |chains| == mask + 1 && i <= |chains|
      && (forall k :: 0 <= k < |chains| ==> Within(chains[k], nodes))
      && (forall x, k :: x in nodes && 0 <= k < |chains| ==> (x in chains[k] <==> Bucket(x.hash, mask) == k))
      && (forall x :: x in nodes ==> Bucket(x.hash, mask) <= mask)
      && (forall k :: i <= k < |chains| ==> Chain(buckets[k], chains[k], k, mask))
      && tmp.nodes <= nodes
      && (forall x :: x in nodes ==> (x in tmp.nodes <==> Bucket(x.hash, mask) < i))
    }

    /** The outer loop of resize. */
    method MoveBucket(i: nat, tmp: Map)
      requires Moving(i, tmp) && i <= mask && tmp.Valid() && tmp.moved == tmp.n
      modifies tmp`n, tmp`chains, tmp`nodes, tmp`moved, tmp.buckets, nodes`hash, nodes`next
      ensures Moving(i + 1, tmp) && tmp.Valid() && tmp.moved == tmp.n
      ensures forall x :: x in nodes ==> x.hash == old(x.hash)
    {
      hide Chain;
      hide Bucket;
      hide Map.Valid;
      assert Within(chains[i], nodes);
      forall k, x | i < k < |chains| && x in chains[k]
        ensures x in nodes && x !in chains[i]
      {
        assert Within(chains[k], nodes);
      }
      MoveChain(buckets[i], chains[i], i, mask, tmp);
      assert forall x :: x in nodes ==> x.hash == old(x.hash);
      assert forall x :: x in nodes ==> Bucket(x.hash, mask) <= mask;
      forall x | x in nodes
        ensures x in tmp.nodes <==> Bucket(x.hash, mask) < i + 1
      {
        assert x in chains[i] <==> Bucket(x.hash, mask) == i;
      }
      assert forall k :: 0 <= k < |chains| ==> Within(chains[k], nodes);
      forall k | i + 1 <= k < |chains|
        ensures Chain(buckets[k], chains[k], k, mask)
      {
        assert old(Chain(buckets[k], chains[k], k, mask));
        assert buckets[k] == old(buckets[k]);
        assert forall x :: x in chains[k] ==> x !in chains[i] && x.next == old(x.next) && x.hash == old(x.hash);
      }
      assert tmp.nodes <= nodes;
    }

    /** resize: every node goes to another array of buckets; only the arrangement changes. */
    method Resize(newMask: nat)
      requires Valid() && IsMask(newMask)
      modifies this, nodes`hash, nodes`next
      ensures Valid() && fresh(buckets) && mask == newMask && nodes == old(nodes) && moved == old(moved) + n
      ensures forall x :: x in nodes ==> x.hash == old(x.hash)
    {
      hide Map.Valid;
      hide IsMask;
      hide Moving;
      var tmp := new Map.OfSize(newMask);
      var i := 0;
      MovingStarts(tmp);
      while i <= mask
        invariant unchanged(this) && fresh(tmp.buckets) && tmp.mask == newMask
        invariant i <= mask + 1 && Moving(i, tmp) && tmp.Valid() && tmp.moved == tmp.n
        invariant forall x :: x in nodes ==> x.hash == old(x.hash)
      {
        MoveBucket(i, tmp);
        i := i + 1;
      }
      MovingEnds(tmp);
      buckets, mask, n := tmp.buckets, tmp.mask, tmp.n;
      chains, nodes, moved := tmp.chains, tmp.nodes, moved + tmp.moved;
      SameTable(tmp);
      Sizes();
    }

    lemma MovingStarts(tmp: Map)
      requires Valid() && tmp != this && tmp.buckets != buckets && tmp.nodes == {}
      ensures Moving(0, tmp)
    {
      Homes();
    }

    lemma MovingEnds(tmp: Map)
      requires Moving(mask + 1, tmp)
      ensures tmp.nodes == nodes
    {
    }

    lemma SameTable(tmp: Map)
      requires tmp.Valid() && buckets == tmp.buckets && mask == tmp.mask && n == tmp.n
      requires chains == tmp.chains && nodes == tmp.nodes
      ensures Valid()
    {
      forall x | x in nodes
        ensures AtHome(x)
      {
        assert tmp.AtHome(x);
      }
    }

    /** hmap_expand_at. */
    method Expand()
      requires Valid() && n < Pow2(64)
      modifies this, nodes`hash, nodes`next
      ensures Valid() && nodes == old(nodes) && (buckets == old(buckets) || fresh(buckets))
      ensures forall x :: x in nodes ==> x.hash == old(x.hash)
      ensures mask == if CalcMask(n) > old(mask) then CalcMask(n) else old(mask)
      ensures moved == old(moved) + if mask != old(mask) then n else 0
    {
      hide Map.Valid;
      var newMask := CalculateMask(n);
      CalcMaskIs(n);
      Sizes();
      if newMask > mask {
        Resize(newMask);
        Sizes();
      }
    }

    /** hmap_shrink_at. */
    method Shrink()
      requires Valid() && n < Pow2(64)
      modifies this, nodes`hash, nodes`next
      ensures Valid() && nodes == old(nodes) && (buckets == old(buckets) || fresh(buckets))
      ensures forall x :: x in nodes ==> x.hash == old(x.hash)
      ensures mask == if CalcMask(n) < old(mask) then CalcMask(n) else old(mask)
      ensures moved == old(moved) + if mask != old(mask) then n else 0
    {
      hide Map.Valid;
      var newMask := CalculateMask(n);
      CalcMaskIs(n);
      Sizes();
      if newMask < mask {
        Resize(newMask);
        Sizes();
      }
    }

    /** hmap_reserve_at. */
    method Reserve(capacity: nat)
      requires Valid() && capacity < Pow2(64)
      modifies this, nodes`hash, nodes`next
      ensures Valid() && nodes == old(nodes) && (buckets == old(buckets) || fresh(buckets))
      ensures forall x :: x in nodes ==> x.hash == old(x.hash)
      ensures mask == if CalcMask(capacity) > old(mask) then CalcMask(capacity) else old(mask)
      ensures moved == old(moved) + if mask != old(mask) then n else 0
    {
      hide Map.Valid;
      var newMask := CalculateMask(capacity);
      CalcMaskIs(capacity);
      if newMask > mask {
        Resize(newMask);
      }
    }

    lemma Sizes()
      requires Valid()
      ensures n == |nodes| && |chains| == buckets.Length == mask + 1
    {
    }

    /** The chain of a hash. */
    lemma BucketOf(hash: nat)
      requires Valid()
      ensures var b := Bucket(hash, mask);
              b < buckets.Length == |chains| && Chain(buckets[b], chains[b], b, mask) && Within(chains[b], nodes)
    {
      BucketBound(hash, mask);
    }

    /** hmap_insert_at: the table has grown if more than half its capacity is used, so there are
        never more than 2 * mask + 1 nodes afterwards. */
    method Insert(node: Node, hash: nat)
      requires Valid() && node !in nodes && n + 1 < Pow2(64)
      modifies this, buckets, nodes`hash, nodes`next, node`hash, node`next
      ensures Valid() && nodes == old(nodes) + {node} && (buckets == old(buckets) || fresh(buckets))
      ensures node.hash == hash && forall x :: x in old(nodes) ==> x.hash == old(x.hash)
      ensures n == old(n) + 1 && mask == GrownMask(n, old(mask)) && n <= 2 * mask + 1
      ensures moved == old(moved) + if mask != old(mask) then n else 0
    {
      hide Map.Valid;
      hide CalcMask;
      Sizes();
      InsertFast(node, hash);
      Sizes();
      CalcMaskIs(n);
      if n / 2 > mask {
        Expand();
        Sizes();
      }
    }

    /** hmap_clear. */
    method Clear()
      requires Valid()
      modifies this`n, this`chains, this`nodes, buckets
      ensures Valid() && nodes == {}
    {
      if n > 0 {
        n := 0;
        var i := 0;
        while i < buckets.Length
          invariant n == 0 && i <= buckets.Length && forall k :: 0 <= k < i ==> buckets[k] == null
        {
          buckets[i] := null;
          i := i + 1;
        }
        chains, nodes := seq(mask + 1, _ => []), {};
      }
    }
  }
}
