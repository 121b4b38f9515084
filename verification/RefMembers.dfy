/** The members of an object on the heap, as a finite map. */
module RefMembers {
  import opened Bytes
  import opened RefGraph
  import opened RefChanges

  /** The members of an object. */
  ghost function Members(names: seq<Bytes>, kids: seq<Addr>): map<Bytes, Addr>
    requires |names| == |kids|
  {
    if names == [] then map[]
    else
      var last := |names| - 1;
      Members(names[..last], kids[..last])[names[last] := kids[last]]
  }

  ghost predicate IsObject(c: Cell) {
    c.shape.Object? && |c.shape.names| == |c.kids|
  }

  ghost function MembersOf(c: Cell): map<Bytes, Addr>
    requires IsObject(c)
  {
    Members(c.shape.names, c.kids)
  }

  lemma {:induction false} MembersHas(names: seq<Bytes>, kids: seq<Addr>, name: Bytes)
    requires |names| == |kids|
    ensures name in Members(names, kids) <==> name in names
    decreases |names|
  {
    if names != [] {
      var last := |names| - 1;
      assert names == names[..last] + [names[last]];
      MembersHas(names[..last], kids[..last], name);
    }
  }

  lemma SameMembers(c: Cell, d: Cell)
    requires IsObject(c) && d.shape == c.shape && d.kids == c.kids
    ensures IsObject(d) && MembersOf(d) == MembersOf(c)
  {
  }

  function OneOf(a: Option<Addr>): multiset<Addr> {
    if a.Some? then multiset{a.value} else multiset{}
  }

  lemma MembersMore(names: seq<Bytes>, kids: seq<Addr>, name: Bytes, value: Addr)
    requires |names| == |kids|
    ensures Members(names + [name], kids + [value]) == Members(names, kids)[name := value]
  {
    assert (names + [name])[..|names|] == names && (kids + [value])[..|kids|] == kids;
  }

  lemma {:induction false} MembersUpdate(names: seq<Bytes>, kids: seq<Addr>, i: nat, value: Addr)
    requires |names| == |kids| && i < |names|
    requires forall j, k :: 0 <= j < k < |names| ==> names[j] != names[k]
    ensures Members(names, kids[i := value]) == Members(names, kids)[names[i] := value]
    decreases |names|
  {
    var last := |names| - 1;
    if i == last {
      assert kids[i := value][..last] == kids[..last];
    } else {
      assert kids[i := value][..last] == kids[..last][i := value];
      MembersUpdate(names[..last], kids[..last], i, value);
    }
  }

  /** shash_replace on the members: the new cell, and the value whose place was taken. */
  function Replaced(c: Cell, i: nat, name: Bytes, value: Addr): (r: Cell)
    requires WellFormed(c) && c.shape.Object? && i <= |c.kids|
    requires i < |c.kids| ==> c.shape.names[i] == name
    requires i == |c.kids| ==> name !in c.shape.names
  {
    if i < |c.kids| then c.(kids := c.kids[i := value])
    else c.(shape := Object(c.shape.names + [name]), kids := c.kids + [value])
  }

  lemma ReplacedIs(c: Cell, i: nat, name: Bytes, value: Addr)
    requires WellFormed(c) && c.shape.Object? && i <= |c.kids|
    requires i < |c.kids| ==> c.shape.names[i] == name
    requires i == |c.kids| ==> name !in c.shape.names
    ensures var r := Replaced(c, i, name, value);
            && r.count == c.count && r.shape.Object? && WellFormed(r)
            && Members(r.shape.names, r.kids) == Members(c.shape.names, c.kids)[name := value]
            && (forall k :: k in r.kids ==> k in c.kids || k == value)
            && multiset(r.kids) + (if i < |c.kids| then multiset{c.kids[i]} else multiset{})
               == multiset(c.kids) + multiset{value}
  {
    hide Members;
    var r := Replaced(c, i, name, value);
    if i < |c.kids| {
      assert c.kids == c.kids[..i] + [c.kids[i]] + c.kids[i + 1..];
      assert r.kids == c.kids[..i] + [value] + c.kids[i + 1..];
      MembersUpdate(c.shape.names, c.kids, i, value);
    } else {
      MembersMore(c.shape.names, c.kids, name, value);
    }
  }

  method FindMember(c: Cell, name: Bytes) returns (i: nat)
    requires WellFormed(c) && c.shape.Object?
    ensures i <= |c.kids| && (i < |c.kids| ==> c.shape.names[i] == name) && (i == |c.kids| ==> name !in c.shape.names)
  {
    i := 0;
    while i < |c.kids| && c.shape.names[i] != name
      invariant i <= |c.kids| && forall j :: 0 <= j < i ==> c.shape.names[j] != name
    {
      i := i + 1;
    }
  }

  lemma MembersNone()
    ensures Members([], []) == map[]
  {
  }

  lemma {:induction false} MembersAt(names: seq<Bytes>, kids: seq<Addr>, i: nat)
    requires |names| == |kids| && i < |names|
    requires forall j, k :: 0 <= j < k < |names| ==> names[j] != names[k]
    ensures names[i] in Members(names, kids) && Members(names, kids)[names[i]] == kids[i]
    decreases |names|
  {
    var last := |names| - 1;
    if i < last {
      assert names[i] == names[..last][i] && kids[i] == kids[..last][i];
      MembersAt(names[..last], kids[..last], i);
    }
  }

  lemma {:induction false} MemberIsKid(names: seq<Bytes>, kids: seq<Addr>, name: Bytes)
    requires |names| == |kids| && name in Members(names, kids)
    ensures Members(names, kids)[name] in kids
    decreases |names|
  {
    var last := |names| - 1;
    if name != names[last] { MemberIsKid(names[..last], kids[..last], name); }
  }

  /** Objects with the same members refer to the same values. */
  lemma SameKids(c: Cell, d: Cell)
    requires IsObject(c) && IsObject(d) && WellFormed(c) && WellFormed(d) && MembersOf(c) == MembersOf(d)
    ensures forall k :: k in c.kids <==> k in d.kids
  {
    forall k | k in c.kids || k in d.kids
      ensures k in c.kids && k in d.kids
    {
      if k in c.kids { KidOfBoth(c, d, k); } else { KidOfBoth(d, c, k); }
    }
  }

  lemma KidOfBoth(c: Cell, d: Cell, k: Addr)
    requires IsObject(c) && IsObject(d) && WellFormed(c) && MembersOf(c) == MembersOf(d) && k in c.kids
    ensures k in d.kids
  {
    hide Members;
    var i :| 0 <= i < |c.kids| && c.kids[i] == k;
    MembersAt(c.shape.names, c.kids, i);
    MemberIsKid(d.shape.names, d.kids, c.shape.names[i]);
  }

  /** The member of that name, if there is one, leads back to the object. */
  ghost predicate LeadsBack(m: Memory, obj: Addr, name: Bytes) {
    && obj in m && IsObject(m[obj]) && name in MembersOf(m[obj])
    && Reaches(m, MembersOf(m[obj])[name], obj)
  }

  /** In memory without cycles no member leads back. */
  lemma NoneLeadsBack(m: Memory, obj: Addr, name: Bytes)
    requires Acyclic(m)
    ensures !LeadsBack(m, obj, name)
  {
    hide Acyclic;
    hide Reaches;
    if LeadsBack(m, obj, name) {
      MemberIsKid(m[obj].shape.names, m[obj].kids, name);
      KidLeadsAway(m, obj, MembersOf(m[obj])[name]);
    }
  }

  lemma NoneToReplace(m: Memory, obj: Addr, name: Bytes)
    requires obj in m && m[obj].shape.Object? && name !in m[obj].shape.names
    ensures !LeadsBack(m, obj, name)
  {
    hide Reaches;
    if IsObject(m[obj]) { MembersHas(m[obj].shape.names, m[obj].kids, name); }
  }
}
