/** What growing costs, over whole runs of a real table. */
module HashRuns {
  import opened Bits
  import opened HashGrowth
  import opened HashMap
  import HashIteration

  datatype Step = Put(node: Node, hash: nat) | Take(node: Node)

  /** What a run has come to: the table, and how many nodes have been inserted. */
  ghost function CostOf(h: Map, inserts: nat): Cost
    reads h
  {
    Cost(h.n, h.mask, inserts, h.moved)
  }

  /** The nodes of the table after a step. */
  ghost function After(nodes: set<Node>, s: Step): set<Node> {
    if s.Put? then nodes + {s.node} else nodes - {s.node}
  }

  /** The nodes after a run from an empty table, and how many times one was inserted that was not
      there. */
  ghost function AfterAll(steps: seq<Step>): set<Node> {
    if steps == [] then {} else After(AfterAll(steps[..|steps| - 1]), steps[|steps| - 1])
  }

  ghost function Inserts(steps: seq<Step>): nat {
    if steps == [] then 0
    else
      var before, s := steps[..|steps| - 1], steps[|steps| - 1];
      Inserts(before) + if s.Put? && s.node !in AfterAll(before) then 1 else 0
  }

  /** hmap_insert of a node that is not in the table, or hmap_remove of one that is. */
  method Perform(h: Map, s: Step, inserts: nat) returns (now: nat)
    requires h.Valid() && h.n + 1 < Pow2(64)
    modifies h, h.buckets, h.nodes`hash, h.nodes`next, s.node`hash, s.node`next
    ensures h.Valid() && (h.buckets == old(h.buckets) || fresh(h.buckets)) && h.nodes == After(old(h.nodes), s)
    ensures if s.Put? && s.node !in old(h.nodes) then
              now == inserts + 1 && CostOf(h, now) == Apply(old(CostOf(h, inserts)), Insert)
            else if s.Take? && s.node in old(h.nodes) then
              now == inserts && CostOf(h, now) == Apply(old(CostOf(h, inserts)), Remove)
            else
              now == inserts && CostOf(h, now) == old(CostOf(h, inserts))
  {
    hide Map.Valid;
    hide CalcMask;
    h.Sizes();
    var there := HashIteration.Contains(h, s.node);
    now := inserts;
    match s
    case Put(node, hash) =>
      if !there {
        h.Insert(node, hash);
        now := inserts + 1;
      }
    case Take(node) =>
      if there {
        h.Remove(node);
        h.Sizes();
      }
  }

  ghost function NodesOf(steps: seq<Step>): set<Node> {
    set s | s in steps :: s.node
  }

  /** Over any run of hmap_insert and hmap_remove from an empty table, the table holds the nodes
      that were inserted and not removed, at most 2 * mask + 1 of them, and all its resizes together have moved at most two nodes for each
      insertion. */
  method PerformAll(steps: seq<Step>) returns (h: Map, inserts: nat)
    requires |steps| + 1 < Pow2(64)
    modifies NodesOf(steps)`hash, NodesOf(steps)`next
    ensures h.Valid() && fresh(h) && h.nodes == AfterAll(steps) && inserts == Inserts(steps)
    ensures h.n <= 2 * h.mask + 1 && h.moved <= 2 * inserts
  {
    hide Map.Valid;
    hide Pow2;
    hide CalcMask;
    h := new Map();
    inserts := 0;
    EmptyIsPaid();
    var i := 0;
    while i < |steps|
      invariant i <= |steps| && h.Valid() && fresh(h) && fresh(h.buckets) && h.nodes <= NodesOf(steps)
      invariant h.nodes == AfterAll(steps[..i]) && inserts == Inserts(steps[..i])
      invariant inserts <= i && Paid(CostOf(h, inserts))
    {
      assert steps[i] in steps && steps[..i + 1][..i] == steps[..i];
      assert steps[i].node in NodesOf(steps);
      ApplyPaid(CostOf(h, inserts), Insert);
      ApplyPaid(CostOf(h, inserts), Remove);
      inserts := Perform(h, steps[i], inserts);
      i := i + 1;
    }
    assert steps[..i] == steps;
  }
}
