/** Whole runs: a caller that only gives away and gives up references it owns. */
module RefRuns {
  import opened Bytes
  import opened RefGraph
  import opened RefChanges
  import opened RefMembers
  import opened RefCount

  datatype Op =
    | New(shape: Shape, kids: seq<Addr>)
    | CloneOf(a: Addr)
    | PutIn(obj: Addr, name: Bytes, value: Addr)
    | AddTo(list: Addr, element: Addr)
    | DeepCloneOf(a: Addr)
    | GiveUp(a: Addr)

  /** The caller respects ownership.  An object that it does not own may get a new member, but no
      member of it may be replaced. */
  predicate Allowed(memory: Memory, owned: multiset<Addr>, op: Op) {
    match op
    case New(shape, kids) => WellFormed(Cell(1, shape, kids)) && multiset(kids) <= owned
    case CloneOf(a) => a in memory
    case PutIn(obj, name, value) =>
      && obj in memory && memory[obj].shape.Object? && value in owned
      && (multiset{obj, value} <= owned || name !in memory[obj].shape.names)
    case AddTo(list, element) => list in memory && memory[list].shape.Array? && element in owned
    case DeepCloneOf(a) => a in memory
    case GiveUp(a) => a in owned
  }

  /** The memory, and what the caller owns. */
  datatype State = State(memory: Memory, owned: multiset<Addr>)

  /** What the operation does to the memory; `a` is the value it returns. */
  ghost predicate Did(op: Op, a: Addr, m: Memory, n: Memory) {
    match op
    case New(shape, kids) => a !in m && n == m[a := Cell(1, shape, kids)]
    case CloneOf(v) => a == v && v in m && n == m[v := m[v].(count := m[v].count + 1)]
    case PutIn(obj, name, value) =>
      && obj in m && obj in n && IsObject(m[obj]) && IsObject(n[obj]) && OthersStay(m, n, obj)
      && MembersOf(n[obj]) == MembersOf(m[obj])[name := value]
    case AddTo(list, element) => list in m && n == m[list := m[list].(kids := m[list].kids + [element])]
    case DeepCloneOf(v) =>
      && v in m && a !in m && n.Keys == m.Keys + {a} && OthersStay(m, n, a)
      && (if m[v].shape.Object? then IsObject(m[v]) && IsObject(n[a]) && MembersOf(n[a]) == MembersOf(m[v])
          else n[a].shape == m[v].shape && n[a].kids == m[v].kids)
    case GiveUp(v) => Shrunk(m, n) && Gone(m, n, [v])
  }

  /** What the caller owns afterwards. */
  function Owned(op: Op, a: Addr, owned: multiset<Addr>): multiset<Addr> {
    match op
    case New(_, kids) => owned - multiset(kids) + multiset{a}
    case CloneOf(_) => owned + multiset{a}
    case PutIn(_, _, value) => owned - multiset{value}
    case AddTo(_, element) => owned - multiset{element}
    case DeepCloneOf(_) => owned + multiset{a}
    case GiveUp(v) => owned - multiset{v}
  }

  /** An operation that is not allowed is left out. */
  ghost predicate Took(op: Op, a: Addr, s: State, t: State) {
    if Allowed(s.memory, s.owned, op) then Did(op, a, s.memory, t.memory) && t.owned == Owned(op, a, s.owned)
    else t == s
  }

  method Put(h: Heap, obj: Addr, name: Bytes, value: Addr, owned: multiset<Addr>) returns (now: multiset<Addr>)
    requires h.Valid() && h.dying == {} && owned == h.handles && Allowed(h.memory, owned, PutIn(obj, name, value))
    modifies h
    ensures h.Valid() && h.dying == {} && now == h.handles && now == owned - multiset{value}
    ensures Did(PutIn(obj, name, value), 0, old(h.memory), h.memory)
  {
    hide Counted;
    hide Acyclic;
    hide Reaches;
    hide MembersOf;
    hide OthersStay;
    hide FreedBetween;
    hide LeadsBack;
    assert h.Live() == h.memory;
    if name !in h.memory[obj].shape.names { NoneToReplace(h.memory, obj, name); }
    h.ObjectPut(obj, name, value);
    now := owned - multiset{value};
    assert h.Live() == h.memory;
  }

  method DeepCopy(h: Heap, v: Addr) returns (a: Addr)
    requires h.Valid() && h.dying == {} && v in h.memory
    modifies h
    ensures h.Valid() && h.dying == {} && h.handles == old(h.handles) + multiset{a}
    ensures Did(DeepCloneOf(v), a, old(h.memory), h.memory)
  {
    hide Counted;
    hide Acyclic;
    hide Apart;
    hide MembersOf;
    hide OthersStay;
    assert h.Live() == h.memory;
    a := h.DeepClone(v);
    assert h.Live() == h.memory;
  }

  /** An operation that is allowed; `now` is what the caller owns afterwards. */
  method PerformAllowed(h: Heap, op: Op, owned: multiset<Addr>) returns (a: Addr, now: multiset<Addr>)
    requires h.Valid() && h.dying == {} && owned == h.handles && Allowed(h.memory, owned, op)
    modifies h
    ensures h.Valid() && h.dying == {} && now == h.handles
    ensures Did(op, a, old(h.memory), h.memory) && now == Owned(op, a, owned)
  {
    hide Counted;
    hide Acyclic;
    hide Reaches;
    hide MembersOf;
    hide Gone;
    hide Shrunk;
    hide OthersStay;
    hide FreedBetween;
    a := 0;
    ghost var m := h.memory;
    assert h.Live() == m;
    match op
    case New(shape, kids) =>
      a := h.Create(shape, kids);
      now := owned - multiset(kids) + multiset{a};
      assert h.Live() == h.memory && Did(op, a, m, h.memory);
    case CloneOf(v) =>
      a := h.Clone(v);
      now := owned + multiset{a};
      assert h.Live() == h.memory && Did(op, a, m, h.memory);
    case PutIn(obj, name, value) => now := Put(h, obj, name, value, owned);
    case AddTo(list, element) =>
      h.ArrayAdd(list, element);
      now := owned - multiset{element};
      assert h.Live() == h.memory && Did(op, a, m, h.memory);
    case DeepCloneOf(v) =>
      a := DeepCopy(h, v);
      now := owned + multiset{a};
    case GiveUp(v) =>
      h.Destroy(v);
      now := owned - multiset{v};
      assert h.Live() == h.memory && Did(op, a, m, h.memory);
  }

  /** One operation, if it is allowed. */
  method Perform(h: Heap, op: Op, owned: multiset<Addr>) returns (a: Addr, now: multiset<Addr>)
    requires h.Valid() && h.dying == {} && owned == h.handles
    modifies h
    ensures h.Valid() && h.dying == {} && now == h.handles
    ensures Took(op, a, State(old(h.memory), owned), State(h.memory, now))
  {
    hide Allowed;
    hide Did;
    hide Owned;
    a, now := 0, owned;
    if Allowed(h.memory, owned, op) {
      a, now := PerformAllowed(h, op, owned);
    }
  }

  /** A run, state by state; `values` are what the operations returned. */
  ghost predicate IsRun(ops: seq<Op>, values: seq<Addr>, states: seq<State>) {
    && |values| == |ops| && |states| == |ops| + 1 && states[0] == State(map[], multiset{})
    && forall i :: 0 <= i < |ops| ==> Took(ops[i], values[i], states[i], states[i + 1])
  }

  /** Over any run from the empty heap, every value ever created is freed exactly when no reference
      of the caller leads to it, if and only if there is no cycle to which none leads. */
  method PerformAll(ops: seq<Op>) returns (h: Heap, owned: multiset<Addr>, values: seq<Addr>, ghost states: seq<State>)
    ensures h.Valid() && h.dying == {} && owned == h.handles
    ensures IsRun(ops, values, states) && states[|ops|] == State(h.memory, owned)
    ensures forall a: Addr :: a < h.next ==> (a in h.freed <==> a !in h.memory)
    ensures (forall a: Addr :: a < h.next ==> (a in h.freed <==> !InUse(h.memory, h.handles, a)))
       <==> !HasIdleLoop(h.memory, h.handles)
  {
    hide Took;
    h := new Heap();
    owned, values := multiset{}, [];
    states := [State(map[], multiset{})];
    assert h.Live() == h.memory;
    for i := 0 to |ops|
      invariant h.Valid() && h.dying == {} && owned == h.handles && fresh(h)
      invariant IsRun(ops[..i], values, states) && states[i] == State(h.memory, owned)
    {
      assert ops[..i + 1] == ops[..i] + [ops[i]];
      var a;
      a, owned := Perform(h, ops[i], owned);
      values, states := values + [a], states + [State(h.memory, owned)];
    }
    assert ops[..|ops|] == ops;
    h.FreedUnlessLoop();
  }
}
