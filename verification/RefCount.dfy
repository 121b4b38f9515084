/** json.c: the reference counts of JSON values.  Callers own references ("handles"); creating and
    cloning hand one out, put, add and destroy take one over. */
module RefCount {
  import opened Bytes
  import opened RefGraph
  import opened RefChanges
  import opened RefMembers

  class Heap {
    var memory: Memory
    var next: nat                         // the next address that malloc returns
    ghost var handles: multiset<Addr>     // the references that callers own
    ghost var dying: set<Addr>            // values whose count is 0 and that are being destroyed
    ghost var freed: seq<Addr>            // the calls of free, in order

    ghost function Live(): Memory
      reads this
    {
      memory - dying
    }

    ghost predicate Valid()
      reads this
    {
      && Counted(Live(), handles, next)
      && dying <= memory.Keys
      && (forall a :: a in memory ==> a < next)
      && (forall i, j :: 0 <= i < j < |freed| ==> freed[i] != freed[j])
      && (forall a :: a in freed ==> a < next && a !in memory)
      && (forall a: Addr :: a < next ==> a in memory || a in freed)
    }

    constructor ()
      ensures Valid() && Live() == map[] && handles == multiset{} && dying == {} && freed == []
    {
      memory, next := map[], 0;
      handles, dying, freed := multiset{}, {}, [];
    }

    /** json_create, and the functions around it. */
    method Create(shape: Shape, kids: seq<Addr>) returns (a: Addr)
      requires Valid() && WellFormed(Cell(1, shape, kids)) && multiset(kids) <= handles
      modifies this
      ensures Valid() && dying == old(dying) && freed == old(freed)
      ensures a !in old(Live()) && Live() == old(Live())[a := Cell(1, shape, kids)]
      ensures handles == old(handles) - multiset(kids) + multiset{a}
      ensures old(Acyclic(Live())) ==> Acyclic(Live())
    {
      hide Counted;
      hide Acyclic;
      hide WellFormed;
      ghost var m, c := Live(), Cell(1, shape, kids);
      a := next;
      Addresses(m, handles, next);
      CountedNew(m, handles, next, c);
      NewKeepsAcyclic(m, handles, next, c);
      memory := memory[a := Cell(1, shape, kids)];
      next := next + 1;
      handles := handles - multiset(kids) + multiset{a};
      assert Live() == m[a := c];
    }

    /** json_clone: one more reference to the same value. */
    method Clone(a: Addr) returns (b: Addr)
      requires Valid() && a in Live()
      modifies this`memory, this`handles
      ensures Valid() && dying == old(dying) && freed == old(freed)
      ensures b == a && handles == old(handles) + multiset{a}
      ensures Live() == old(Live())[a := old(Live()[a].(count := Live()[a].count + 1))]
      ensures old(Acyclic(Live())) ==> Acyclic(Live())
    {
      hide Counted;
      hide Acyclic;
      CountedClone(Live(), handles, next, a);
      memory := memory[a := memory[a].(count := memory[a].count + 1)];
      handles := handles + multiset{a};
      b := a;
      assert Live() == old(Live())[a := old(Live()[a].(count := Live()[a].count + 1))];
      if old(Acyclic(Live())) { AcyclicPart(old(Live()), Live()); }
    }

    /** json_destroy: the reference goes; if it was the last one, the references the value holds go
        too, each by a call of its own, and then the value is freed.  (json_destroy_object and
        json_destroy_array are the loop.)  A value is freed when, and only when, nothing refers to
        it any more: that is what Valid says of the values that are left.  The value itself is the
        last one to be freed, so what it holds can still be read when it is given up. */
    method Destroy(a: Addr)
      requires Valid() && a in handles
      modifies this
      ensures Valid() && handles == old(handles) - multiset{a} && dying == old(dying) && next == old(next)
      ensures Shrunk(old(Live()), Live()) && FreedBetween(old(freed), freed, old(Live()), Live())
      ensures Gone(old(Live()), Live(), [a])
      ensures a !in Live() ==> freed != [] && freed[|freed| - 1] == a
      ensures forall x :: x in dying ==> memory[x] == old(memory[x])
      ensures References(Live(), handles, next) < References(old(Live()), old(handles), next)
      decreases References(Live(), handles, next), 0
    {
      hide Counted;
      hide References;
      hide Shrunk;
      hide FreedBetween;
      hide Gone;
      ghost var m, h := Live(), handles;
      HandleIsLive(m, h, next, a);
      memory := memory[a := memory[a].(count := memory[a].count - 1)];
      if memory[a].count > 0 {
        CountedDrop(m, h, next, a);
        ReferencesAfterDrop(m, h, next, a);
        handles := handles - multiset{a};
        ShrunkByCount(m, a, memory[a], freed);
        assert Live() == m[a := memory[a]];
        GoneNot(m, Live(), [a]);
      } else {
        var kids := memory[a].kids;
        CountedDie(m, h, next, a);
        ReferencesAfterDeath(m, h, next, a);
        dying := dying + {a};
        handles := handles - multiset{a} + multiset(kids);
        assert Live() == m - {a};
        DestroyEach(kids);
        ShrunkByDeath(m, a, Live(), old(freed), freed);
        GoneByDeath(m, h, next, a, Live());
        Free(a);
      }
    }

    /** free. */
    method Free(a: Addr)
      requires Valid() && a in dying
      modifies this`memory, this`dying, this`freed
      ensures Valid() && Live() == old(Live()) && dying == old(dying) - {a} && freed == old(freed) + [a]
      ensures memory == old(memory) - {a}
    {
      hide Counted;
      dying := dying - {a};
      memory := memory - {a};
      freed := freed + [a];
      assert Live() == old(Live());
    }

    /** Between operations every value ever created is live or freed, and it is freed exactly when
        no handle leads to it, if and only if there is no cycle to which none leads. */
    lemma FreedUnlessLoop()
      requires Valid() && dying == {}
      ensures forall a: Addr :: a < next ==> (a in freed <==> a !in memory)
      ensures (forall a: Addr :: a < next ==> (a in freed <==> !InUse(memory, handles, a))) <==> !HasIdleLoop(memory, handles)
    {
      hide Counted;
      hide InUse;
      hide HasIdleLoop;
      assert Live() == memory;
      LiveUnlessLoop(memory, handles, next);
      Addresses(memory, handles, next);
      forall a: Addr | InUse(memory, handles, a)
        ensures a in memory
      {
        InUseIsLive(memory, handles, next, a);
      }
    }

    /** What a json_destroy has freed, looking at the memory before it and the handles that are
        left: exactly what none of them leads to, if and only if there is no cycle to which none
        of them leads. */
    lemma DestroyUnlessLoop(before: Memory, freedBefore: seq<Addr>, root: Addr)
      requires Valid() && Shrunk(before, Live()) && Gone(before, Live(), [root])
      requires FreedBetween(freedBefore, freed, before, Live())
      requires forall x :: x in before ==> x !in freedBefore
      ensures (forall x :: x in before ==> (x in freed <==> !InUse(before, handles, x))) <==> !HasIdleLoop(before, handles)
    {
      hide Counted;
      hide InUse;
      GoneExactly(before, Live(), handles, next, [root]);
    }

    /** Where there are no cycles, what a json_destroy has freed is exactly what no handle leads to
        any more. */
    lemma DestroyIsExact(before: Memory, freedBefore: seq<Addr>, x: Addr)
      requires Valid() && Acyclic(before) && Shrunk(before, Live())
      requires FreedBetween(freedBefore, freed, before, Live())
      requires x in before && x !in freedBefore
      ensures x in freed <==> !InUse(Live(), handles, x)
    {
      hide Counted;
      hide InUse;
      AcyclicPart(before, Live());
      LiveExactlyInUse(Live(), handles, next, x);
    }

    /** The loops of json_destroy_object and json_destroy_array. */
    method DestroyEach(kids: seq<Addr>)
      requires Valid() && multiset(kids) <= handles
      modifies this
      ensures Valid() && handles == old(handles) - multiset(kids) && dying == old(dying) && next == old(next)
      ensures Shrunk(old(Live()), Live()) && FreedBetween(old(freed), freed, old(Live()), Live())
      ensures Gone(old(Live()), Live(), kids)
      ensures forall x :: x in dying ==> memory[x] == old(memory[x])
      ensures References(Live(), handles, next) <= References(old(Live()), old(handles), next)
      decreases References(Live(), handles, next), 1
    {
      hide Counted;
      hide References;
      hide Gone;
      hide Shrunk;
      hide FreedBetween;
      var i := 0;
      assert kids[..0] == [];
      GoneNot(Live(), Live(), []);
      ShrunkNot(Live(), freed);
      while i < |kids|
        invariant i <= |kids| && Valid() && dying == old(dying) && next == old(next)
        invariant handles == old(handles) - multiset(kids[..i]) && multiset(kids) <= old(handles)
        invariant Shrunk(old(Live()), Live()) && FreedBetween(old(freed), freed, old(Live()), Live())
        invariant Gone(old(Live()), Live(), kids[..i])
        invariant forall x :: x in dying ==> memory[x] == old(memory[x])
        invariant References(Live(), handles, next) <= References(old(Live()), old(handles), next)
      {
        ghost var m, f := Live(), freed;
        StillOwned(kids, i, old(handles));
        Destroy(kids[i]);
        ShrunkOn(old(Live()), m, Live(), old(freed), f, freed);
        GoneOn(old(Live()), m, Live(), kids[..i], kids[i]);
        i := i + 1;
      }
      assert kids[..i] == kids;
    }

    /** shash_replace on the members of an object: the value whose place was taken is not
        destroyed yet. */
    method PutMember(obj: Addr, name: Bytes, value: Addr) returns (was: Option<Addr>)
      requires Valid() && obj in Live() && value in handles && Live()[obj].shape.Object?
      modifies this`memory, this`handles
      ensures Valid() && handles == old(handles) - multiset{value} + OneOf(was)
      ensures obj in Live() && Live() == old(Live())[obj := Live()[obj]]
      ensures IsObject(Live()[obj]) && IsObject(old(Live()[obj]))
      ensures MembersOf(Live()[obj]) == MembersOf(old(Live()[obj]))[name := value]
      ensures was.Some? <==> name in MembersOf(old(Live()[obj]))
      ensures was.Some? ==> was.value == MembersOf(old(Live()[obj]))[name]
      ensures Live()[obj].count == old(Live()[obj].count)
      ensures old(Acyclic(Live()) && !Reaches(Live(), value, obj)) ==> Acyclic(Live())
    {
      hide Counted;
      hide Acyclic;
      hide Reaches;
      hide Members;
      Addresses(Live(), handles, next);
      var c := memory[obj];
      var i := FindMember(c, name);
      ReplacedIs(c, i, name, value);
      MembersHas(c.shape.names, c.kids, name);
      if i < |c.kids| { MembersAt(c.shape.names, c.kids, i); }
      hide WellFormed;
      was := if i < |c.kids| then Some(c.kids[i]) else None;
      Store(obj, Replaced(c, i, name, value), value, OneOf(was));
    }

    /** json_destroy of a value that had been in an object. */
    method GiveUp(obj: Addr, was: Addr)
      requires Valid() && was in handles && obj in Live()
      requires obj in handles - multiset{was} || !Reaches(Live(), was, obj)
      modifies this
      ensures Valid() && handles == old(handles) - multiset{was} && dying == old(dying) && obj in Live()
      ensures Shrunk(old(Live()), Live()) && FreedBetween(old(freed), freed, old(Live()), Live())
    {
      hide Counted;
      hide Reaches;
      ghost var m := Live();
      Destroy(was);
      LedByOne(m, was, obj);
      if obj in handles { StillLive(obj); }
    }

    /** json_object_put: the object takes the reference over, and gives up the one to the value
        that had the name before.  The caller need not own a reference to the object, unless that
        value leads back to it; in memory without cycles it does not. */
    method ObjectPut(obj: Addr, name: Bytes, value: Addr)
      requires Valid() && value in handles && obj in Live() && Live()[obj].shape.Object?
      requires multiset{obj, value} <= handles || !LeadsBack(Live(), obj, name)
      modifies this
      ensures Valid() && handles == old(handles) - multiset{value} && dying == old(dying)
      ensures obj in Live() && IsObject(Live()[obj]) && IsObject(old(Live()[obj]))
      ensures MembersOf(Live()[obj]) == MembersOf(old(Live()[obj]))[name := value]
      ensures OthersStay(old(Live()), Live(), obj)
      ensures FreedBetween(old(freed), freed, old(Live()), Live())
      ensures name !in MembersOf(old(Live()[obj])) ==>
                Live() == old(Live())[obj := Live()[obj]] && Live()[obj].count == old(Live()[obj].count) && freed == old(freed)
      ensures old(Acyclic(Live()) && !Reaches(Live(), value, obj)) ==> Acyclic(Live())
    {
      hide Counted;
      hide Acyclic;
      hide Reaches;
      hide MembersOf;
      hide Shrunk;
      hide FreedBetween;
      hide OthersStay;
      ghost var m, h := Live(), handles;
      var was := PutMember(obj, name, value);
      ghost var c := Live()[obj];
      ShrunkNot(Live(), freed);
      if was.Some? {
        assert was.value in handles && handles - multiset{was.value} == h - multiset{value};
        if !LeadsBack(m, obj, name) {
          NotBack(m, m[obj := c], obj, was.value);
        } else {
          assert obj in h - multiset{value};
        }
        GiveUp(obj, was.value);
        AcyclicSmaller(m[obj := c], Live());
      } else {
        assert handles == h - multiset{value};
      }
      ShrunkAfterPut(m, obj, c, Live(), old(freed), freed);
      SameMembers(c, Live()[obj]);
    }

    /** A container gets another reference, and perhaps gives one up, which becomes a handle. */
    method Store(a: Addr, c: Cell, ghost value: Addr, ghost out: multiset<Addr>)
      requires Valid() && a in Live() && value in handles
      requires WellFormed(c) && c.count == Live()[a].count && multiset(c.kids) + out == multiset(Live()[a].kids) + multiset{value}
      requires forall k :: k in c.kids ==> k in Live()[a].kids || k == value
      modifies this`memory, this`handles
      ensures Valid() && handles == old(handles) - multiset{value} + out
      ensures Live() == old(Live())[a := c]
      ensures old(Acyclic(Live()) && !Reaches(Live(), value, a)) ==> Acyclic(Live())
    {
      hide Counted;
      hide Acyclic;
      hide Reaches;
      hide WellFormed;
      ghost var m := Live();
      CountedPut(m, handles, next, a, c, multiset{value}, out);
      PutKeepsAcyclic(m, handles, next, a, c, value);
      memory := memory[a := c];
      handles := handles - multiset{value} + out;
      assert Live() == m[a := c];
    }

    lemma StillLive(a: Addr)
      requires Valid() && a in handles
      ensures a in Live() && WellFormed(Live()[a])
    {
      HandleIsLive(Live(), handles, next, a);
    }

    /** json_array_add: the list takes the reference over. */
    method ArrayAdd(list: Addr, element: Addr)
      requires Valid() && list in Live() && Live()[list].shape.Array? && element in handles
      modifies this
      ensures Valid() && handles == old(handles) - multiset{element} && dying == old(dying) && freed == old(freed)
      ensures Live() == old(Live())[list := old(Live()[list].(kids := Live()[list].kids + [element]))]
      ensures old(Acyclic(Live()) && !Reaches(Live(), element, list)) ==> Acyclic(Live())
    {
      hide Counted;
      hide Acyclic;
      hide Reaches;
      Addresses(Live(), handles, next);
      var c := memory[list].(kids := memory[list].kids + [element]);
      Store(list, c, element, multiset{});
    }

    /** The elements of json_clone_array. */
    method CloneEach(kids: seq<Addr>)
      requires Valid() && forall k :: k in kids ==> k in Live()
      modifies this`memory, this`handles
      ensures Valid() && handles == old(handles) + multiset(kids)
      ensures Live().Keys == old(Live()).Keys && Shrunk(old(Live()), Live())
      ensures old(Acyclic(Live())) ==> Acyclic(Live())
    {
      hide Counted;
      hide Acyclic;
      var i := 0;
      assert kids[..0] == [];
      while i < |kids|
        invariant i <= |kids| && Valid() && handles == old(handles) + multiset(kids[..i])
        invariant Live().Keys == old(Live()).Keys && Shrunk(old(Live()), Live())
        invariant old(Acyclic(Live())) ==> Acyclic(Live())
      {
        assert kids[..i + 1] == kids[..i] + [kids[i]];
        var _ := Clone(kids[i]);
        i := i + 1;
      }
      assert kids[..i] == kids;
    }

    /** json_deep_clone.  Its comment promises a deep copy; the copy is a new container around the
        same values, each of which gets one more reference.  So it is a deep copy if and only if
        there are no such values. */
    method DeepClone(a: Addr) returns (b: Addr)
      requires Valid() && a in Live()
      modifies this
      ensures Valid() && handles == old(handles) + multiset{b} && dying == old(dying) && freed == old(freed)
      ensures b !in old(Live()) && Live().Keys == old(Live()).Keys + {b} && OthersStay(old(Live()), Live(), b)
      ensures if old(Live()[a]).shape.Object?
              then IsObject(old(Live()[a])) && IsObject(Live()[b]) && MembersOf(Live()[b]) == MembersOf(old(Live()[a]))
              else Live()[b].shape == old(Live()[a]).shape && Live()[b].kids == old(Live()[a]).kids
      ensures Apart(old(Live()), a, Live(), b) <==> old(Live()[a]).kids == []
      ensures old(Acyclic(Live())) ==> Acyclic(Live())
    {
      hide Counted;
      hide Acyclic;
      hide Apart;
      ghost var m, h, end := Live(), handles, next;
      Addresses(m, handles, next);
      KidsAreLive(m, handles, next);
      var c := memory[a];
      if c.shape.Object? {
        b := CloneObject(a, c);
        Addresses(Live(), handles, next);
        SameKids(c, Live()[b]);
      } else {
        CloneEach(c.kids);
        ghost var n := Live();
        b := Create(c.shape, c.kids);
        assert Live().Keys == n.Keys + {b};
      }
      ApartIfEmpty(m, h, end, a, Live(), b);
    }

    /** json_clone_object. */
    method CloneObject(a: Addr, c: Cell) returns (b: Addr)
      requires Valid() && a in Live() && Live()[a] == c && c.shape.Object? && WellFormed(c)
      requires forall k :: k in c.kids ==> k in Live()
      modifies this
      ensures Valid() && handles == old(handles) + multiset{b} && dying == old(dying) && freed == old(freed)
      ensures b !in old(Live()) && Live().Keys == old(Live()).Keys + {b} && OthersStay(old(Live()), Live(), b)
      ensures IsObject(Live()[b]) && MembersOf(Live()[b]) == MembersOf(c)
      ensures old(Acyclic(Live())) ==> Acyclic(Live())
    {
      hide Counted;
      hide Acyclic;
      hide Reaches;
      hide Members;
      ghost var m := Live();
      b := Create(Object([]), []);
      MembersNone();
      var names := c.shape.names;
      var i := 0;
      assert names[..0] == [] && c.kids[..0] == [];
      while i < |names|
        invariant i <= |names| && Valid() && handles == old(handles) + multiset{b} && dying == old(dying) && freed == old(freed)
        invariant Live().Keys == m.Keys + {b} && OthersStay(m, Live(), b)
        invariant IsObject(Live()[b]) && Live()[b].count == 1 && MembersOf(Live()[b]) == Members(names[..i], c.kids[..i])
        invariant Acyclic(m) ==> Acyclic(Live())
      {
        assert names[..i + 1] == names[..i] + [names[i]] && c.kids[..i + 1] == c.kids[..i] + [c.kids[i]];
        MembersHas(names[..i], c.kids[..i], names[i]);
        MembersMore(names[..i], c.kids[..i], names[i], c.kids[i]);
        CloneInto(b, names[i], c.kids[i]);
        i := i + 1;
      }
      assert names[..i] == names && c.kids[..i] == c.kids;
    }

    /** One turn of its loop: json_object_put(json, name, json_clone(value)). */
    method CloneInto(b: Addr, name: Bytes, value: Addr)
      requires Valid() && b in handles && b in Live() && Live()[b].count == 1 && IsObject(Live()[b])
      requires name !in MembersOf(Live()[b]) && value in Live() && value != b
      modifies this
      ensures Valid() && handles == old(handles) && dying == old(dying) && freed == old(freed)
      ensures Live().Keys == old(Live()).Keys && OthersStay(old(Live()), Live(), b)
      ensures IsObject(Live()[b]) && Live()[b].count == 1
      ensures MembersOf(Live()[b]) == MembersOf(old(Live()[b]))[name := value]
      ensures old(Acyclic(Live())) ==> Acyclic(Live())
    {
      hide Counted;
      hide Acyclic;
      hide Reaches;
      hide MembersOf;
      ghost var m, h := Live(), handles;
      var v := Clone(value);
      NothingLeadsTo(Live(), handles, next, value, b);
      assert multiset{b, value} <= handles;
      ObjectPut(b, name, v);
      assert handles == h;
    }

    // ----- what the theorems are about

    /** An array that is put into itself and then given up stays for good. */
    method SelfReference() returns (a: Addr)
      requires Valid()
      modifies this
      ensures Valid() && handles == old(handles) && a !in old(memory)
      ensures a in Live() && Live()[a].kids == [a]
      ensures !InUse(Live(), handles, a) && IdleLoop(Live(), handles, [a, a])
    {
      hide Counted;
      hide InUse;
      hide IdleLoop;
      hide Acyclic;
      hide Reaches;
      hide Shrunk;
      hide Gone;
      hide FreedBetween;
      ghost var m, h := Live(), handles;
      a := Create(Array, []);
      var again := Clone(a);
      ArrayAdd(a, again);
      ghost var n := Live();
      assert [] + [a] == [a];
      assert n == m[a := Cell(2, Array, [a])] && handles == h + multiset{a};
      Destroy(a);
      KeepsItself(m, h, old(next), a, Live());
    }

    /** The copy of an array of one value holds that very value. */
    method CloneOfOne() returns (a: Addr, b: Addr)
      requires Valid()
      modifies this
      ensures Valid() && a in Live() && b in Live() && a != b
      ensures Live()[a].kids == Live()[b].kids && |Live()[a].kids| == 1
      ensures !Apart(Live(), a, Live(), b)
    {
      hide Counted;
      hide Acyclic;
      hide Reaches;
      var c := Create(Scalar, []);
      a := Create(Array, [c]);
      b := DeepClone(a);
      ReachesSelf(Live(), c);
      ReachesFrom(Live(), a, c, c);
      ReachesFrom(Live(), b, c, c);
    }

    /** A new scalar becomes a member of an object. */
    method PutScalar(obj: Addr, name: Bytes) returns (v: Addr)
      requires Valid() && Acyclic(Live()) && obj in Live() && IsObject(Live()[obj])
      modifies this
      ensures Valid() && Acyclic(Live()) && handles == old(handles) && dying == old(dying)
      ensures obj in Live() && IsObject(Live()[obj])
      ensures MembersOf(Live()[obj]) == old(MembersOf(Live()[obj]))[name := v]
    {
      hide Counted;
      hide Acyclic;
      hide Reaches;
      hide MembersOf;
      hide LeadsBack;
      v := Create(Scalar, []);
      LeafLeadsNowhere(Live(), v, obj);
      NoneLeadsBack(Live(), obj, name);
      ObjectPut(obj, name, v);
    }

    /** What json_parser_put_value does for a nested object: the new object is owned by its parent
        only, and two members of one name are put into it. */
    method PutNested(outer: Addr, key: Bytes, name: Bytes) returns (inner: Addr, first: Addr, second: Addr)
      requires Valid() && Acyclic(Live()) && outer in handles && outer in Live() && Live()[outer].shape.Object?
      modifies this
      ensures Valid() && Acyclic(Live()) && handles == old(handles) && dying == old(dying)
      ensures inner in Live() && IsObject(Live()[inner]) && MembersOf(Live()[inner]) == map[name := second]
    {
      hide Counted;
      hide Acyclic;
      hide Reaches;
      hide MembersOf;
      hide LeadsBack;
      hide OthersStay;
      hide FreedBetween;
      inner := NewMember(outer, key);
      first := PutScalar(inner, name);
      second := PutScalar(inner, name);
      assert map[name := first][name := second] == map[name := second];
    }

    /** json_parser_push_object: an empty object becomes a member, and nobody else owns it. */
    method NewMember(outer: Addr, key: Bytes) returns (inner: Addr)
      requires Valid() && Acyclic(Live()) && outer in Live() && Live()[outer].shape.Object?
      modifies this
      ensures Valid() && Acyclic(Live()) && handles == old(handles) && dying == old(dying)
      ensures inner in Live() && inner !in handles && IsObject(Live()[inner]) && MembersOf(Live()[inner]) == map[]
      ensures outer in Live() && IsObject(Live()[outer]) && key in MembersOf(Live()[outer])
      ensures MembersOf(Live()[outer])[key] == inner
    {
      hide Counted;
      hide Acyclic;
      hide Reaches;
      hide LeadsBack;
      hide Members;
      ghost var h := handles;
      KidsAreLive(Live(), handles, next);
      Addresses(Live(), handles, next);
      inner := Create(Object([]), []);
      MembersNone();
      LeafLeadsNowhere(Live(), inner, outer);
      NoneLeadsBack(Live(), outer, key);
      ghost var c := Live()[inner];
      ObjectPut(outer, key, inner);
      MemberIsKid(Live()[outer].shape.names, Live()[outer].kids, key);
      KidsAreLive(Live(), handles, next);
      SameMembers(c, Live()[inner]);
      assert handles == h;
    }
  }
}
