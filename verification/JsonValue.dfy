/** JSON trees.  A `Json` is the tree of struct json objects as the C code sees it: an object is
    the sequence of its members in the iteration order of its hash table.  A `Value` is what
    such a tree means: an object is a finite map, so the order is gone. */
module JsonValue {
  import opened Bytes

  /** An IEEE double: opaque. */
  datatype Double = Double(bits: nat)

  datatype Member = Member(name: Bytes, value: Json)

  datatype Json =
    | JNull
    | JFalse
    | JTrue
    | JInteger(integer: int)
    | JReal(double: Double)
    | JString(str: Bytes)
    | JArray(elems: seq<Json>)
    | JObject(members: seq<Member>)

  datatype Value =
    | VNull
    | VFalse
    | VTrue
    | VInteger(integer: int)
    | VReal(double: Double)
    | VString(str: Bytes)
    | VArray(elems: seq<Value>)
    | VObject(members: map<Bytes, Value>)

  predicate IsContainer(j: Json) {
    j.JArray? || j.JObject?
  }

  /** The value of a tree: a later member replaces an earlier one of the same name. */
  function Eval(j: Json): Value {
    match j
    case JNull => VNull
    case JFalse => VFalse
    case JTrue => VTrue
    case JInteger(n) => VInteger(n)
    case JReal(d) => VReal(d)
    case JString(s) => VString(s)
    case JArray(es) => VArray(EvalElems(es))
    case JObject(ms) => VObject(EvalMembers(ms))
  }

  function EvalElems(es: seq<Json>): (vs: seq<Value>)
    ensures |vs| == |es|
    ensures forall i :: 0 <= i < |es| ==> vs[i] == Eval(es[i])
  {
    if |es| == 0 then [] else EvalElems(es[..|es| - 1]) + [Eval(es[|es| - 1])]
  }

  function EvalMembers(ms: seq<Member>): map<Bytes, Value> {
    if |ms| == 0 then map[]
    else EvalMembers(ms[..|ms| - 1])[ms[|ms| - 1].name := Eval(ms[|ms| - 1].value)]
  }

  /** The largest number of containers on a path from the root. */
  function Depth(j: Json): nat {
    match j
    case JArray(es) => 1 + DepthElems(es)
    case JObject(ms) => 1 + DepthMembers(ms)
    case _ => 0
  }

  function DepthElems(es: seq<Json>): nat {
    if |es| == 0 then 0 else Max(Depth(es[0]), DepthElems(es[1..]))
  }

  function DepthMembers(ms: seq<Member>): nat {
    if |ms| == 0 then 0 else Max(Depth(ms[0].value), DepthMembers(ms[1..]))
  }

  ghost predicate DistinctNames(ms: seq<Member>) {
    forall i, j :: 0 <= i < j < |ms| ==> ms[i].name != ms[j].name
  }

  /** A tree that hash tables can hold: names within an object are unique. */
  ghost predicate Proper(j: Json) {
    match j
    case JArray(es) => forall e :: e in es ==> Proper(e)
    case JObject(ms) => DistinctNames(ms) && forall m :: m in ms ==> Proper(m.value)
    case _ => true
  }

  /** Reals of the given kind, integers of 64 bits, byte strings without NUL. */
  ghost predicate Printable(j: Json, good: Double -> bool) {
    match j
    case JReal(d) => good(d)
    case JInteger(n) => -0x8000_0000_0000_0000 <= n < 0x8000_0000_0000_0000
    case JString(s) => NulFree(s)
    case JArray(es) => forall e :: e in es ==> Printable(e, good)
    case JObject(ms) => forall m :: m in ms ==> NulFree(m.name) && Printable(m.value, good)
    case _ => true
  }

  ghost predicate NulFree(s: Bytes) {
    forall i :: 0 <= i < |s| ==> s[i] as int != 0
  }

  /** shash_find in the table of an object. */
  function Find(ms: seq<Member>, name: Bytes): (r: Option<Json>)
    ensures r.Some? ==> exists i :: 0 <= i < |ms| && ms[i] == Member(name, r.value)
    ensures r.None? ==> forall i :: 0 <= i < |ms| ==> ms[i].name != name
  {
    if |ms| == 0 then None
    else if ms[0].name == name then Some(ms[0].value)
    else Find(ms[1..], name)
  }

  /** C's == on doubles: any relation.  It is neither identity, because of the two zeros, nor
      reflexive, because of NaN. */
  type SameDouble = (Double, Double) -> bool

  /** json_equal. */
  predicate Equal(a: Json, b: Json, same: SameDouble)
    decreases a, 1
  {
    match (a, b)
    case (JObject(ms), JObject(ns)) =>
      |ms| == |ns| &&
      forall i :: 0 <= i < |ms| ==>
        var found := Find(ns, ms[i].name);
        found.Some? && Equal(ms[i].value, found.value, same)
    case (JArray(es), JArray(fs)) =>
      |es| == |fs| && forall i :: 0 <= i < |es| ==> Equal(es[i], fs[i], same)
    case (JString(s), JString(t)) => s == t
    case (JInteger(m), JInteger(n)) => m == n
    case (JReal(c), JReal(d)) => same(c, d)
    case (JNull, JNull) => true
    case (JFalse, JFalse) => true
    case (JTrue, JTrue) => true
    case _ => false
  }

  /** Two values that differ at most in reals that compare equal. */
  ghost predicate Alike(v: Value, w: Value, same: SameDouble) {
    match (v, w)
    case (VObject(m), VObject(n)) => m.Keys == n.Keys && forall k :: k in m ==> Alike(m[k], n[k], same)
    case (VArray(es), VArray(fs)) => |es| == |fs| && forall i :: 0 <= i < |es| ==> Alike(es[i], fs[i], same)
    case (VReal(c), VReal(d)) => same(c, d)
    case _ => v == w
  }

  ghost predicate NoReals(j: Json) {
    match j
    case JReal(_) => false
    case JArray(es) => forall e :: e in es ==> NoReals(e)
    case JObject(ms) => forall m :: m in ms ==> NoReals(m.value)
    case _ => true
  }

  /** No real at all. */
  function NoReal(): Double -> bool {
    (d: Double) => false
  }

  lemma {:induction false} PrintableNoReals(j: Json, good: Double -> bool)
    requires Printable(j, NoReal())
    ensures NoReals(j) && Printable(j, good)
  {
    match j {
      case JArray(es) =>
        forall e | e in es
          ensures NoReals(e) && Printable(e, good)
        {
          PrintableNoReals(e, good);
        }
      case JObject(ms) =>
        forall m | m in ms
          ensures NoReals(m.value) && Printable(m.value, good)
        {
          PrintableNoReals(m.value, good);
        }
      case _ =>
    }
  }

  lemma {:induction false} EvalAt(ms: seq<Member>, i: nat)
    requires DistinctNames(ms) && i < |ms|
    ensures ms[i].name in EvalMembers(ms) && EvalMembers(ms)[ms[i].name] == Eval(ms[i].value)
  {
    if i < |ms| - 1 {
      EvalAt(ms[..|ms| - 1], i);
      assert ms[i].name != ms[|ms| - 1].name;
    }
  }

  lemma {:induction false} EvalName(ms: seq<Member>, name: Bytes) returns (i: nat)
    requires name in EvalMembers(ms)
    ensures i < |ms| && ms[i].name == name
  {
    if name == ms[|ms| - 1].name {
      i := |ms| - 1;
    } else {
      i := EvalName(ms[..|ms| - 1], name);
    }
  }

  lemma EvalFind(ms: seq<Member>, name: Bytes)
    requires DistinctNames(ms)
    ensures Find(ms, name).Some? <==> name in EvalMembers(ms)
    ensures Find(ms, name).Some? ==> Eval(Find(ms, name).value) == EvalMembers(ms)[name]
  {
    if Find(ms, name).Some? {
      var i :| 0 <= i < |ms| && ms[i] == Member(name, Find(ms, name).value);
      EvalAt(ms, i);
    } else if name in EvalMembers(ms) {
      var i := EvalName(ms, name);
      assert false;
    }
  }

  lemma {:induction false} EvalSize(ms: seq<Member>)
    requires DistinctNames(ms)
    ensures |EvalMembers(ms)| == |ms|
  {
    if |ms| > 0 {
      var rest := ms[..|ms| - 1];
      EvalSize(rest);
      if ms[|ms| - 1].name in EvalMembers(rest) {
        var i := EvalName(rest, ms[|ms| - 1].name);
        assert false;
      }
    }
  }

  /** json_equal decides whether two trees mean values that are alike, whatever the iteration
      orders of their hash tables and whatever == does on reals. */
  lemma {:induction false} EqualIffAlike(a: Json, b: Json, same: SameDouble)
    requires Proper(a) && Proper(b)
    ensures Equal(a, b, same) <==> Alike(Eval(a), Eval(b), same)
    decreases a, 2
  {
    match (a, b) {
      case (JArray(es), JArray(fs)) =>
        forall i | 0 <= i < |es| && i < |fs|
          ensures Equal(es[i], fs[i], same) <==> Alike(EvalElems(es)[i], EvalElems(fs)[i], same)
        {
          EqualIffAlike(es[i], fs[i], same);
        }
      case (JObject(ms), JObject(ns)) =>
        EqualObjects(a, b, same);
      case _ =>
    }
  }

  lemma {:induction false} EqualMember(a: Json, b: Json, i: nat, same: SameDouble)
    requires a.JObject? && b.JObject? && Proper(a) && Proper(b) && i < |a.members|
    ensures var m, n, name := EvalMembers(a.members), EvalMembers(b.members), a.members[i].name;
            && name in m
            && (Agree(a.members[i], b.members, same) <==> name in n && Alike(m[name], n[name], same))
    decreases a, 0
  {
    var ms, ns := a.members, b.members;
    EvalAt(ms, i);
    EvalFind(ns, ms[i].name);
    assert ms[i] in ms;
    var f := Find(ns, ms[i].name);
    if f.Some? {
      assert Member(ms[i].name, f.value) in ns;
      EqualIffAlike(ms[i].value, f.value, same);
    }
  }

  lemma {:induction false} EqualObjects(a: Json, b: Json, same: SameDouble)
    requires a.JObject? && b.JObject? && Proper(a) && Proper(b)
    ensures Equal(a, b, same) <==> Alike(Eval(a), Eval(b), same)
    decreases a, 1
  {
    hide EvalMembers;
    hide Proper;
    var ms, ns := a.members, b.members;
    var m, n := EvalMembers(ms), EvalMembers(ns);
    Sizes(a, b);
    assert Equal(a, b, same) <==> |ms| == |ns| && forall i :: 0 <= i < |ms| ==> Agree(ms[i], ns, same);
    assert Alike(Eval(a), Eval(b), same) <==> m.Keys == n.Keys && forall k :: k in m ==> Alike(m[k], n[k], same);
    hide Agree;
    hide Equal;
    hide Alike;
    forall i | 0 <= i < |ms|
      ensures ms[i].name in m
      ensures Agree(ms[i], ns, same) <==> ms[i].name in n && Alike(m[ms[i].name], n[ms[i].name], same)
    {
      EqualMember(a, b, i, same);
    }
    if Equal(a, b, same) {
      forall k | k in m
        ensures k in n && Alike(m[k], n[k], same)
      {
        var i := EvalName(ms, k);
        assert Agree(ms[i], ns, same);
      }
      SubsetSameSize(m.Keys, n.Keys);
    }
    if Alike(Eval(a), Eval(b), same) {
      assert |m.Keys| == |n.Keys|;
    }
  }

  lemma Sizes(a: Json, b: Json)
    requires a.JObject? && b.JObject? && Proper(a) && Proper(b)
    ensures |EvalMembers(a.members)| == |a.members| && |EvalMembers(b.members)| == |b.members|
  {
    EvalSize(a.members);
    EvalSize(b.members);
  }

  ghost predicate Agree(member: Member, ns: seq<Member>, same: SameDouble) {
    Find(ns, member.name).Some? && Equal(member.value, Find(ns, member.name).value, same)
  }

  lemma {:induction false} AlikeIfIdentity(v: Value, w: Value, same: SameDouble)
    requires forall d, e :: same(d, e) <==> d == e
    ensures Alike(v, w, same) <==> v == w
    decreases v
  {
    match (v, w) {
      case (VObject(m), VObject(n)) =>
        forall k | k in m && k in n
          ensures Alike(m[k], n[k], same) <==> m[k] == n[k]
        {
          AlikeIfIdentity(m[k], n[k], same);
        }
        assert m == n <==> m.Keys == n.Keys && forall k :: k in m ==> m[k] == n[k];
      case (VArray(es), VArray(fs)) =>
        forall i | 0 <= i < |es| && i < |fs|
          ensures Alike(es[i], fs[i], same) <==> es[i] == fs[i]
        {
          AlikeIfIdentity(es[i], fs[i], same);
        }
      case _ =>
    }
  }

  /** Where one of the trees has no reals, it does not matter how reals compare. */
  lemma {:induction false} EqualWithoutReals(a: Json, b: Json, same: SameDouble, other: SameDouble)
    requires NoReals(a) || NoReals(b)
    ensures Equal(a, b, same) <==> Equal(a, b, other)
    decreases a
  {
    match (a, b) {
      case (JArray(es), JArray(fs)) =>
        forall i | 0 <= i < |es| && i < |fs|
          ensures Equal(es[i], fs[i], same) <==> Equal(es[i], fs[i], other)
        {
          assert es[i] in es && fs[i] in fs;
          EqualWithoutReals(es[i], fs[i], same, other);
        }
      case (JObject(ms), JObject(ns)) =>
        forall i | 0 <= i < |ms|
          ensures Agree(ms[i], ns, same) <==> Agree(ms[i], ns, other)
        {
          assert ms[i] in ms;
          var f := Find(ns, ms[i].name);
          if f.Some? {
            assert Member(ms[i].name, f.value) in ns;
            EqualWithoutReals(ms[i].value, f.value, same, other);
          }
        }
        assert forall s :: Equal(a, b, s) <==> |ms| == |ns| && forall i :: 0 <= i < |ms| ==> Agree(ms[i], ns, s);
      case _ =>
    }
  }

  /** Without reals, json_equal holds if and only if the two trees have the same value. */
  lemma EqualIffSameValue(a: Json, b: Json, same: SameDouble)
    requires Proper(a) && Proper(b) && (NoReals(a) || NoReals(b))
    ensures Equal(a, b, same) <==> Eval(a) == Eval(b)
  {
    var identity: SameDouble := (d: Double, e: Double) => d == e;
    EqualWithoutReals(a, b, same, identity);
    EqualIffAlike(a, b, identity);
    AlikeIfIdentity(Eval(a), Eval(b), identity);
  }

  /** Every real in the tree compares equal to itself: none is NaN. */
  ghost predicate SelfEqualReals(j: Json, same: SameDouble) {
    match j
    case JReal(d) => same(d, d)
    case JArray(es) => forall e :: e in es ==> SelfEqualReals(e, same)
    case JObject(ms) => forall m :: m in ms ==> SelfEqualReals(m.value, same)
    case _ => true
  }

  /** The shortcut of json_equal for one and the same tree gives what the comparison would give if
      and only if the tree has no NaN. */
  lemma {:induction false} EqualSelf(a: Json, same: SameDouble)
    requires Proper(a)
    ensures Equal(a, a, same) <==> SelfEqualReals(a, same)
  {
    match a {
      case JArray(es) =>
        forall i | 0 <= i < |es|
          ensures Equal(es[i], es[i], same) <==> SelfEqualReals(es[i], same)
        {
          EqualSelf(es[i], same);
        }
      case JObject(ms) =>
        forall i | 0 <= i < |ms|
          ensures Agree(ms[i], ms, same) <==> SelfEqualReals(ms[i].value, same)
        {
          FindSelf(ms, i);
          assert ms[i] in ms;
          EqualSelf(ms[i].value, same);
        }
        assert Equal(a, a, same) <==> forall i :: 0 <= i < |ms| ==> Agree(ms[i], ms, same);
      case _ =>
    }
  }

  lemma FindSelf(ms: seq<Member>, i: nat)
    requires DistinctNames(ms) && i < |ms|
    ensures Find(ms, ms[i].name) == Some(ms[i].value)
  {
    var f := Find(ms, ms[i].name);
    var k :| 0 <= k < |ms| && ms[k] == Member(ms[i].name, f.value);
  }
}
