/** hmap.h and hmap.c: searching and walking a table. */
module HashIteration {
  import opened Bits
  import opened Chains
  import opened HashGrowth
  import opened HashMap

  /** Number of the node (bucket i, place j) in the order of iteration. */
  ghost function Index(cs: seq<seq<Node>>, i: nat, j: nat): nat
    requires i <= |cs|
  {
    |Flatten(cs[..i])| + j
  }

  lemma IndexAt(cs: seq<seq<Node>>, i: nat, j: nat)
    requires i < |cs| && j < |cs[i]|
    ensures Index(cs, i, j) < |Flatten(cs)| && Flatten(cs)[Index(cs, i, j)] == cs[i][j]
  {
    FlattenAt(cs, i);
  }

  /** Element k of a list, or null behind its end. */
  ghost function At(s: seq<Node>, k: nat): Node? {
    if k < |s| then s[k] else null
  }

  /** What stands in the order of iteration where bucket i begins. */
  lemma IndexOfRest(cs: seq<seq<Node>>, i: nat)
    requires i <= |cs|
    ensures At(Flatten(cs), Index(cs, i, 0)) == Head(Flatten(cs[i..]))
  {
    assert cs == cs[..i] + cs[i..];
    FlattenConcat(cs[..i], cs[i..]);
  }

  /** hmap_next__. */
  method FirstFrom(h: Map, start: nat) returns (node: Node?)
    requires h.Valid() && start <= h.mask + 1
    ensures node == At(h.Order(), Index(h.chains, start, 0))
  {
    IndexOfRest(h.chains, start);
    var i := start;
    while i <= h.mask
      invariant start <= i <= h.mask + 1
      invariant Flatten(h.chains[start..]) == Flatten(h.chains[i..])
    {
      FlattenAt(h.chains, i);
      assert Chain(h.buckets[i], h.chains[i], i, h.mask);
      var node := h.buckets[i];
      if node != null {
        return node;
      }
      i := i + 1;
    }
    assert h.chains[i..] == [];
    node := null;
  }

  /** hmap_first. */
  method First(h: Map) returns (node: Node?)
    requires h.Valid()
    ensures node == At(h.Order(), 0)
  {
    node := FirstFrom(h, 0);
  }

  /** hmap_next: from element k of the order to element k + 1. */
  method Next(h: Map, node: Node, ghost k: nat) returns (next: Node?)
    requires h.Valid() && node in h.nodes && k < |h.Order()| && h.Order()[k] == node
    ensures next == At(h.Order(), k + 1)
  {
    hide Flatten;
    ghost var (b, j) := h.Place(node);
    ghost var c := h.chains[b];
    assert Chain(h.buckets[b], c, b, h.mask);
    assert LinkOk(c, j, null, b, h.mask);
    IndexAt(h.chains, b, j);
    SameIndex(h, k, Index(h.chains, b, j));
    if node.next != null {
      IndexAt(h.chains, b, j + 1);
      next := node.next;
    } else {
      NextBucket(h.chains, b);
      next := FirstFrom(h, Bucket(node.hash, h.mask) + 1);
    }
  }

  lemma NextBucket(cs: seq<seq<Node>>, i: nat)
    requires i < |cs|
    ensures Index(cs, i + 1, 0) == Index(cs, i, |cs[i]|)
  {
    assert cs[..i + 1] == cs[..i] + [cs[i]];
    FlattenConcat(cs[..i], [cs[i]]);
    FlattenAt([cs[i]], 0);
  }

  lemma SameIndex(h: Map, k: nat, l: nat)
    requires h.Valid() && k < |h.Order()| && l < |h.Order()| && h.Order()[k] == h.Order()[l]
    ensures k == l
  {
    h.OrderIsNodes();
  }

  /** HMAP_FOR_EACH: every node is visited once. */
  method ForEach(h: Map) returns (visited: seq<Node>)
    requires h.Valid()
    ensures visited == h.Order() && Distinct(visited) && |visited| == h.n
    ensures h.nodes == set node | node in visited
  {
    h.OrderIsNodes();
    visited := [];
    var node := First(h);
    while node != null
      invariant visited <= h.Order() && node == At(h.Order(), |visited|)
      decreases |h.Order()| - |visited|
    {
      var next := Next(h, node, |visited|);
      visited := visited + [node];
      node := next;
    }
    assert visited == h.Order();
    h.OrderIsNodes();
  }

  // ----- searching

  /** hmap_next_with_hash__: the first node of a chain, from a place on, that has the hash. */
  method NextWithHash(first: Node?, hash: nat, ghost c: seq<Node>, ghost b: nat, ghost mask: nat) returns (node: Node?, ghost k: nat)
    requires Chain(first, c, b, mask)
    ensures k <= |c| && node == At(c, k) && (node != null ==> node.hash == hash)
    ensures forall i :: 0 <= i < k ==> c[i].hash != hash
  {
    node, k := first, 0;
    while node != null && node.hash != hash
      invariant k <= |c| && node == At(c, k)
      invariant forall i :: 0 <= i < k ==> c[i].hash != hash
      decreases |c| - k
    {
      assert LinkOk(c, k, null, b, mask);
      node := node.next;
      k := k + 1;
    }
  }

  /** hmap_contains. */
  method Contains(h: Map, node: Node) returns (found: bool)
    requires h.Valid()
    ensures found == (node in h.nodes)
  {
    BucketBound(node.hash, h.mask);
    var b := Bucket(node.hash, h.mask);
    ghost var c := h.chains[b];
    assert Chain(h.buckets[b], c, b, h.mask) && Within(c, h.nodes);
    assert node in h.nodes ==> h.AtHome(node);
    var p := h.buckets[b];
    ghost var k := 0;
    while p != null
      invariant k <= |c| && p == At(c, k) && node !in c[..k]
      decreases |c| - k
    {
      if p == node {
        return true;
      }
      assert LinkOk(c, k, null, b, h.mask);
      assert c[..k + 1] == c[..k] + [c[k]];
      p := p.next;
      k := k + 1;
    }
    assert c[..k] == c;
    found := false;
  }

  // ----- positions

  /** struct hmap_position. */
  datatype Position = Position(bucket: nat, offset: nat)

  /** The beginning of a bucket, or a node. */
  ghost predicate InTable(cs: seq<seq<Node>>, pos: Position) {
    && pos.bucket <= |cs|
    && (pos.offset == 0 || (pos.bucket < |cs| && pos.offset < |cs[pos.bucket]|))
  }

  /** The place behind node k of bucket i can be written with 32 bits each. */
  ghost predicate Fits32(cs: seq<seq<Node>>, i: nat, k: nat)
    requires i < |cs|
  {
    if k + 1 < |cs[i]| then i < U32 && k + 1 < U32 else i + 1 < U32
  }

  /** The position is the place behind place `k` of the order. */
  ghost predicate IsBehind(cs: seq<seq<Node>>, pos: Position, k: nat) {
    InTable(cs, pos) && Index(cs, pos.bucket, pos.offset) == k + 1
  }

  lemma Earlier(cs: seq<seq<Node>>, i: nat, l: nat)
    requires i <= l <= |cs|
    ensures Index(cs, i, 0) <= Index(cs, l, 0)
  {
    FlattenConcat(cs[..i], cs[i..l]);
    assert cs[..l] == cs[..i] + cs[i..l];
  }

  /** The place behind node k of bucket i, in two words of 32 bits. */
  function Behind32(cs: seq<seq<Node>>, i: nat, k: nat): Position
    requires i < |cs|
  {
    if k + 1 < |cs[i]| then Position(i % U32, (k + 1) % U32) else Position((i + 1) % U32, 0)
  }

  lemma Behind32IsBehind(cs: seq<seq<Node>>, i: nat, k: nat)
    requires i < |cs| && k < |cs[i]|
    ensures IsBehind(cs, Behind32(cs, i, k), Index(cs, i, k)) <==> Fits32(cs, i, k)
  {
    hide Flatten;
    var pos := Behind32(cs, i, k);
    NextBucket(cs, i);
    if pos.bucket < i {
      NextBucket(cs, pos.bucket);
      Earlier(cs, pos.bucket + 1, i);
    }
  }

  /** The place behind node k of bucket i. */
  lemma OneFurther(h: Map, i: nat, k: nat)
    requires h.Valid() && i < |h.chains| && k < |h.chains[i]|
    ensures At(h.Order(), Index(h.chains, i, k)) == h.chains[i][k]
    ensures h.chains[i][k] in h.nodes && h.Place(h.chains[i][k]) == (i, k)
    ensures IsBehind(h.chains, Behind32(h.chains, i, k), Index(h.chains, i, k)) <==> Fits32(h.chains, i, k)
  {
    hide Map.Valid;
    hide Distinct;
    h.OrderIsNodes();
    h.Sizes();
    IndexAt(h.chains, i, k);
    FlattenAt(h.chains, i);
    hide Flatten;
    Behind32IsBehind(h.chains, i, k);
    PlaceOfNode(h, i, k);
  }

  lemma PlaceOfNode(h: Map, i: nat, k: nat)
    requires h.Valid() && i < |h.chains| && k < |h.chains[i]|
    ensures h.chains[i][k] in h.nodes && h.Place(h.chains[i][k]) == (i, k)
  {
    hide Bucket;
    var node := h.chains[i][k];
    assert Chain(h.buckets[i], h.chains[i], i, h.mask) && Within(h.chains[i], h.nodes);
    assert LinkOk(h.chains[i], k, null, i, h.mask);
  }

  lemma SmallFits(h: Map, node: Node)
    requires h.Valid() && node in h.nodes && h.mask + 1 < U32 && h.n < U32
    ensures Fits32(h.chains, h.Place(node).0, h.Place(node).1)
  {
    hide Map.Valid;
    var (i, k) := h.Place(node);
    h.OrderIsNodes();
    h.Sizes();
    IndexAt(h.chains, i, |h.chains[i]| - 1);
  }

  /** hmap_at_position, with the fields of the position 32 bits wide: from place k of the order of
      iteration it returns element k and moves to place k + 1 if and only if that place fits into
      32 bits (it does in tables with fewer than 2^32 buckets and nodes); behind the end it returns
      null and goes back to the beginning. */
  method AtPosition(h: Map, pos: Position) returns (node: Node?, next: Position)
    requires h.Valid() && InTable(h.chains, pos)
    ensures node == At(h.Order(), Index(h.chains, pos.bucket, pos.offset))
    ensures node == null ==> next == Position(0, 0)
    ensures node != null ==>
              && node in h.nodes
              && (IsBehind(h.chains, next, Index(h.chains, pos.bucket, pos.offset))
                  <==> Fits32(h.chains, h.Place(node).0, h.Place(node).1))
  {
    hide Flatten;
    hide Fits32;
    hide IsBehind;
    var offset: nat, i := pos.offset, pos.bucket;
    IndexOfRest(h.chains, i);
    while i <= h.mask
      invariant pos.bucket <= i <= h.mask + 1
      invariant offset == 0 || (i <= h.mask && offset < |h.chains[i]|)
      invariant Index(h.chains, i, offset) == Index(h.chains, pos.bucket, pos.offset)
    {
      ghost var c := h.chains[i];
      assert Chain(h.buckets[i], c, i, h.mask);
      var k := 0;
      var node := h.buckets[i];
      while node != null
        invariant k <= |c| && node == At(c, k) && (offset < |c| ==> k <= offset)
        decreases |c| - k
      {
        assert LinkOk(c, k, null, i, h.mask);
        if k == offset {
          OneFurther(h, i, k);
          if node.next != null {
            next := Position(Bucket(node.hash, h.mask) % U32, (offset + 1) % U32);
          } else {
            next := Position((Bucket(node.hash, h.mask) + 1) % U32, 0);
          }
          return node, next;
        }
        node := node.next;
        k := k + 1;
      }
      NextBucket(h.chains, i);
      offset := 0;
      i := i + 1;
    }
    assert h.chains[..i] == h.chains;
    return null, Position(0, 0);
  }

  /** From (0, 0) to the null pointer: every node once, and back to (0, 0). */
  method ForEachPosition(h: Map) returns (visited: seq<Node>, pos: Position)
    requires h.Valid() && h.mask + 1 < U32 && h.n < U32
    ensures visited == h.Order() && pos == Position(0, 0)
  {
    visited, pos := [], Position(0, 0);
    var node: Node?;
    node, pos := AtPosition(h, pos);
    if node != null { SmallFits(h, node); }
    while node != null
      invariant visited <= h.Order() && node == At(h.Order(), |visited|)
      invariant if node == null then pos == Position(0, 0)
                else InTable(h.chains, pos) && Index(h.chains, pos.bucket, pos.offset) == |visited| + 1
      decreases |h.Order()| - |visited|
    {
      visited := visited + [node];
      node, pos := AtPosition(h, pos);
      if node != null { SmallFits(h, node); }
    }
    assert visited == h.Order();
  }

  // ----- removing while walking

  /** A removal takes the node out of the order of iteration, and leaves the rest of it. */
  lemma OrderWithout(cs: seq<seq<Node>>, i: nat, j: nat)
    requires i < |cs| && j < |cs[i]|
    ensures var k := Index(cs, i, j);
            && k < |Flatten(cs)|
            && Flatten(cs[i := cs[i][..j] + cs[i][j + 1..]]) == Flatten(cs)[..k] + Flatten(cs)[k + 1..]
  {
    var c := cs[i];
    var ds := cs[i := c[..j] + c[j + 1..]];
    FlattenAt(cs, i);
    FlattenAt(ds, i);
    assert ds[..i] == cs[..i] && ds[i + 1..] == cs[i + 1..];
    assert c == c[..j] + [c[j]] + c[j + 1..];
    CutOut(Flatten(cs[..i]), c[..j], c[j], c[j + 1..], Flatten(cs[i + 1..]));
  }

  lemma CutOut(a: seq<Node>, p: seq<Node>, x: Node, q: seq<Node>, d: seq<Node>)
    ensures var s, k := a + (p + [x] + q) + d, |a| + |p|;
            k < |s| && a + (p + q) + d == s[..k] + s[k + 1..]
  {
    var s, k := a + (p + [x] + q) + d, |a| + |p|;
    assert s == (a + p) + ([x] + (q + d));
    assert s[..k] == a + p && s[k..] == [x] + (q + d);
    assert s[k + 1..] == s[k..][1..];
    assert a + (p + q) + d == (a + p) + (q + d);
  }

  /** hmap_remove of the first node in the order of iteration. */
  method RemoveFirst(h: Map, node: Node)
    requires h.Valid() && h.Order() != [] && node == h.Order()[0]
    modifies h`n, h`chains, h`nodes, h.buckets, h.nodes`next
    ensures h.Valid() && h.Order() == old(h.Order())[1..] && h.nodes == old(h.nodes) - {node}
  {
    hide Map.Valid;
    hide Flatten;
    h.OrderIsNodes();
    ghost var (b, j) := h.Place(node);
    IndexAt(h.chains, b, j);
    SameIndex(h, 0, Index(h.chains, b, j));
    OrderWithout(h.chains, b, j);
    h.Remove(node);
  }

  /** HMAP_FOR_EACH_SAFE with a removal in its body, as in shash_clear: the next node is found
      before the node is removed.  Every node is removed once, and none is left. */
  method RemoveEach(h: Map) returns (ghost removed: seq<Node>)
    requires h.Valid()
    modifies h`n, h`chains, h`nodes, h.buckets, h.nodes`next
    ensures h.Valid() && h.nodes == {} && removed == old(h.Order())
  {
    hide Map.Valid;
    hide Flatten;
    removed := [];
    var node := First(h);
    while node != null
      invariant h.Valid() && h.nodes <= old(h.nodes)
      invariant removed <= old(h.Order()) && h.Order() == old(h.Order())[|removed|..]
      invariant node == At(h.Order(), 0)
      decreases |h.Order()|
    {
      h.OrderIsNodes();
      var next := Next(h, node, 0);
      RemoveFirst(h, node);
      removed := removed + [node];
      node := next;
    }
    assert removed == old(h.Order());
    h.OrderIsNodes();
  }

  lemma PlaceOfFirst(h: Map, i: nat)
    requires h.Valid() && i < |h.chains| && h.chains[i] != []
    ensures h.chains[i][0] in h.nodes && h.Place(h.chains[i][0]) == (i, 0)
  {
    hide Bucket;
    var x := h.chains[i][0];
    assert Within(h.chains[i], h.nodes);
    HashTells(h.buckets[i], h.chains[i], i, h.mask, x);
    assert Chain(h.buckets[i], h.chains[i], i, h.mask);
  }

  /** hmap_pop_helper__: removes the first node in a bucket from `bucket` on. */
  method PopHelper(h: Map, bucket: nat) returns (node: Node?, at: nat)
    requires h.Valid() && bucket <= h.mask + 1 && forall i :: 0 <= i < bucket ==> h.chains[i] == []
    modifies h`n, h`chains, h`nodes, h.buckets, h.nodes`next
    ensures h.Valid() && |h.chains| == old(|h.chains|) && h.nodes <= old(h.nodes)
    ensures bucket <= at <= h.mask + 1 && forall i :: 0 <= i < at ==> h.chains[i] == []
    ensures node == At(old(h.Order()), 0)
    ensures h.Order() == if node == null then old(h.Order()) else old(h.Order())[1..]
  {
    hide IsMask;
    hide Flatten;
    hide Segment;
    at := bucket;
    while at <= h.mask
      invariant bucket <= at <= h.mask + 1 && forall i :: 0 <= i < at ==> h.chains[i] == []
      invariant h.Valid() && h.chains == old(h.chains) && h.nodes == old(h.nodes) && h.mask == old(h.mask)
    {
      ghost var c := h.chains[at];
      assert Chain(h.buckets[at], c, at, h.mask);
      var first := h.buckets[at];
      if first != null {
        FlattenTakeFirst(h.chains, at);
        PlaceOfFirst(h, at);
        assert c[..0] + c[1..] == c[1..];
        h.Remove(first);
        return first, at;
      }
      at := at + 1;
    }
    FlattenEmpty(h.chains);
    return null, at;
  }

  /** HMAP_FOR_EACH_POP: every node is popped once, and none is left. */
  method PopEach(h: Map) returns (ghost popped: seq<Node>)
    requires h.Valid()
    modifies h`n, h`chains, h`nodes, h.buckets, h.nodes`next
    ensures h.Valid() && h.nodes == {} && popped == old(h.Order())
  {
    hide Map.Valid;
    hide Flatten;
    popped := [];
    h.Sizes();
    var node, bucket := PopHelper(h, 0);
    while node != null
      invariant h.Valid() && h.nodes <= old(h.nodes)
      invariant bucket <= h.mask + 1 && |h.chains| == h.mask + 1 && forall i :: 0 <= i < bucket ==> h.chains[i] == []
      invariant if node == null then popped == old(h.Order()) && h.Order() == []
                else popped + [node] + h.Order() == old(h.Order())
      decreases |h.Order()|, if node == null then 0 else 1
    {
      popped := popped + [node];
      node, bucket := PopHelper(h, bucket);
    }
    h.OrderIsNodes();
  }
}
