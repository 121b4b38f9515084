/** json_equal and json_hash as the C code computes them, and the canonical form: equal trees
    hash alike and print alike when sorted, however their hash tables iterate. */
module JsonCanonical {
  import opened Bytes
  import opened JsonValue
  import opened JsonPrinter
  import opened JsonRoundTrip
  import JsonDocument

  // ----- equality, in loops

  method EqualValues(a: Json, b: Json, same: SameDouble) returns (r: bool)
    ensures r == Equal(a, b, same)
    decreases a, 1
  {
    match (a, b) {
      case (JObject(_), JObject(_)) => r := EqualObject(a, b, same);
      case (JArray(_), JArray(_)) => r := EqualArray(a, b, same);
      case (JString(s), JString(t)) => r := s == t;
      case (JInteger(m), JInteger(n)) => r := m == n;
      case (JReal(c), JReal(d)) => r := same(c, d);
      case (JNull, JNull) => r := true;
      case (JFalse, JFalse) => r := true;
      case (JTrue, JTrue) => r := true;
      case _ => r := false;
    }
  }

  method EqualObject(a: Json, b: Json, same: SameDouble) returns (r: bool)
    requires a.JObject? && b.JObject?
    ensures r == Equal(a, b, same)
    decreases a, 0
  {
    if |a.members| != |b.members| {
      return false;
    }
    var i := 0;
    while i < |a.members|
      invariant i <= |a.members|
      invariant forall k :: 0 <= k < i ==> Agree(a.members[k], b.members, same)
    {
      var found := Find(b.members, a.members[i].name);
      if found.None? {
        return false;
      }
      var alike := EqualValues(a.members[i].value, found.value, same);
      if !alike {
        return false;
      }
      i := i + 1;
    }
    return true;
  }

  method EqualArray(a: Json, b: Json, same: SameDouble) returns (r: bool)
    requires a.JArray? && b.JArray?
    ensures r == Equal(a, b, same)
    decreases a, 0
  {
    if |a.elems| != |b.elems| {
      return false;
    }
    var i := 0;
    while i < |a.elems|
      invariant i <= |a.elems| && forall k :: 0 <= k < i ==> Equal(a.elems[k], b.elems[k], same)
    {
      var alike := EqualValues(a.elems[i], b.elems[i], same);
      if !alike {
        return false;
      }
      i := i + 1;
    }
    return true;
  }

  // ----- hashing

  /** hash_string, hash_int and hash_double: any functions. */
  datatype Hashes = Hashes(ofString: (Bytes, nat) -> nat, ofInt: (int, nat) -> nat, ofDouble: (Double, nat) -> nat)

  /** json_hash. */
  function Hash(j: Json, basis: nat, h: Hashes): nat
    decreases j, 2
  {
    match j
    case JObject(ms) => HashMembers(j, Sort(ms), |Sort(ms)|, basis, h)
    case JArray(es) => HashElems(j, |es|, h.ofInt(|es|, basis), h)
    case JString(s) => h.ofString(s, basis)
    case JNull => h.ofInt(0, basis)
    case JFalse => h.ofInt(0x100, basis)
    case JTrue => h.ofInt(0x200, basis)
    case JInteger(n) => h.ofInt(n, basis)
    case JReal(d) => h.ofDouble(d, basis)
  }

  /** The basis after the first `i` elements. */
  function HashElems(j: Json, i: nat, basis: nat, h: Hashes): nat
    requires j.JArray? && i <= |j.elems|
    decreases j, 0, i
  {
    if i == 0 then basis else Hash(j.elems[i - 1], HashElems(j, i - 1, basis, h), h)
  }

  /** The basis after the first `i` members of `order`. */
  function HashMembers(j: Json, order: seq<Member>, i: nat, basis: nat, h: Hashes): nat
    requires j.JObject? && i <= |order| && forall m :: m in order ==> m in j.members
    decreases j, 1, i
  {
    if i == 0 then basis
    else HashMember(j, order[i - 1], HashMembers(j, order, i - 1, basis, h), h)
  }

  function HashMember(j: Json, m: Member, basis: nat, h: Hashes): nat
    requires j.JObject? && m in j.members
    decreases j, 0, 0
  {
    Hash(m.value, h.ofString(m.name, basis), h)
  }

  method HashValue(j: Json, basis0: nat, h: Hashes) returns (basis: nat)
    ensures basis == Hash(j, basis0, h)
    decreases j, 1
  {
    match j {
      case JObject(_) => basis := HashObject(j, basis0, h);
      case JArray(_) => basis := HashArray(j, basis0, h);
      case _ => basis := Hash(j, basis0, h);
    }
  }

  method HashObject(j: Json, basis0: nat, h: Hashes) returns (basis: nat)
    requires j.JObject?
    ensures basis == Hash(j, basis0, h)
    decreases j, 0
  {
    var nodes := Sort(j.members);
    basis := basis0;
    var i := 0;
    while i < |nodes|
      invariant i <= |nodes| && basis == HashMembers(j, nodes, i, basis0, h)
    {
      assert nodes[i] in j.members;
      basis := h.ofString(nodes[i].name, basis);
      basis := HashValue(nodes[i].value, basis, h);
      i := i + 1;
    }
  }

  method HashArray(j: Json, basis0: nat, h: Hashes) returns (basis: nat)
    requires j.JArray?
    ensures basis == Hash(j, basis0, h)
    decreases j, 0
  {
    basis := h.ofInt(|j.elems|, basis0);
    var i := 0;
    while i < |j.elems|
      invariant i <= |j.elems| && basis == HashElems(j, i, h.ofInt(|j.elems|, basis0), h)
    {
      basis := HashValue(j.elems[i], basis, h);
      i := i + 1;
    }
  }

  // ----- sorting forgets the iteration order

  lemma SortLength(ms: seq<Member>)
    ensures |Sort(ms)| == |ms|
  {
    assert |multiset(Sort(ms))| == |Sort(ms)| && |multiset(ms)| == |ms|;
  }

  ghost predicate HasName(ms: seq<Member>, name: Bytes) {
    exists i :: 0 <= i < |ms| && ms[i].name == name
  }

  /** Two sorted sequences with the same distinct names line up. */
  lemma {:induction false} SortUnique(a: seq<Member>, b: seq<Member>)
    requires Sorted(a) && Sorted(b) && DistinctNames(a) && DistinctNames(b)
    requires forall n :: HasName(a, n) <==> HasName(b, n)
    ensures |a| == |b| && forall i :: 0 <= i < |a| ==> a[i].name == b[i].name
    decreases |a|
  {
    if a == [] || b == [] {
      assert a != [] ==> HasName(a, a[0].name);
      assert b != [] ==> HasName(b, b[0].name);
    } else {
      assert HasName(a, a[0].name) && HasName(b, b[0].name);
      var k :| 0 <= k < |b| && b[k].name == a[0].name;
      var l :| 0 <= l < |a| && a[l].name == b[0].name;
      AtMostTotal(a[0].name, a[0].name);
      AtMostTotal(b[0].name, b[0].name);
      AtMostAntisymmetric(a[0].name, b[0].name);
      forall n
        ensures HasName(a[1..], n) <==> HasName(a, n) && n != a[0].name
        ensures HasName(b[1..], n) <==> HasName(b, n) && n != b[0].name
      {
        NameInTail(a, n);
        NameInTail(b, n);
      }
      SortUnique(a[1..], b[1..]);
      assert forall i :: 0 < i < |a| ==> a[i] == a[1..][i - 1];
      assert forall i :: 0 < i < |b| ==> b[i] == b[1..][i - 1];
    }
  }

  lemma NameInTail(a: seq<Member>, n: Bytes)
    requires a != [] && DistinctNames(a)
    ensures HasName(a[1..], n) <==> HasName(a, n) && n != a[0].name
  {
    if HasName(a[1..], n) {
      var i :| 0 <= i < |a[1..]| && a[1..][i].name == n;
      assert a[i + 1].name == n;
    }
    if HasName(a, n) && n != a[0].name {
      var i :| 0 <= i < |a| && a[i].name == n;
      assert a[1..][i - 1].name == n;
    }
  }

  lemma EqualNames(a: Json, b: Json, same: SameDouble)
    requires a.JObject? && b.JObject? && Proper(a) && Proper(b) && Equal(a, b, same)
    ensures forall n :: HasName(a.members, n) <==> HasName(b.members, n)
  {
    EqualIffAlike(a, b, same);
    forall n
      ensures HasName(a.members, n) <==> HasName(b.members, n)
    {
      NamesAreKeys(a.members, n);
      NamesAreKeys(b.members, n);
    }
  }

  lemma NamesAreKeys(ms: seq<Member>, n: Bytes)
    requires DistinctNames(ms)
    ensures HasName(ms, n) <==> n in EvalMembers(ms)
  {
    if HasName(ms, n) {
      var i :| 0 <= i < |ms| && ms[i].name == n;
      EvalAt(ms, i);
    }
    if n in EvalMembers(ms) {
      var i := EvalName(ms, n);
      assert ms[i].name == n;
    }
  }

  /** The sorted members of equal objects line up: same names, equal values. */
  lemma EqualSorted(a: Json, b: Json, same: SameDouble)
    requires a.JObject? && b.JObject? && Proper(a) && Proper(b) && Equal(a, b, same)
    ensures var s, t := Sort(a.members), Sort(b.members);
            && |s| == |t| == |a.members| == |b.members|
            && (forall i :: 0 <= i < |s| ==> s[i] in a.members && t[i] in b.members)
            && (forall i :: 0 <= i < |s| ==> s[i].name == t[i].name && Equal(s[i].value, t[i].value, same))
  {
    var s, t := Sort(a.members), Sort(b.members);
    SortDistinct(a.members); SortDistinct(b.members);
    SortSorts(a.members); SortSorts(b.members);
    SortLength(a.members); SortLength(b.members);
    EqualNames(a, b, same);
    OrderKeeps(a.members, Flags(false, true));
    OrderKeeps(b.members, Flags(false, true));
    SameNames(a.members, s);
    SameNames(b.members, t);
    SortUnique(s, t);
    forall i | 0 <= i < |s|
      ensures Equal(s[i].value, t[i].value, same)
    {
      assert s[i] in a.members && t[i] in b.members;
      var k :| 0 <= k < |a.members| && a.members[k] == s[i];
      var l :| 0 <= l < |b.members| && b.members[l] == t[i];
      var found := Find(b.members, s[i].name);
      assert found.Some?;
    }
  }

  lemma SameNames(a: seq<Member>, b: seq<Member>)
    requires forall m :: m in a <==> m in b
    ensures forall n :: HasName(a, n) <==> HasName(b, n)
  {
    forall n
      ensures HasName(a, n) <==> HasName(b, n)
    {
      if HasName(a, n) {
        var i :| 0 <= i < |a| && a[i].name == n;
        assert a[i] in b;
      }
      if HasName(b, n) {
        var i :| 0 <= i < |b| && b[i].name == n;
        assert b[i] in a;
      }
    }
  }

  // ----- equal trees hash alike

  /** hash_double does not tell apart what == does not. */
  ghost predicate HashRespects(h: Hashes, same: SameDouble) {
    forall d, e, basis :: same(d, e) ==> h.ofDouble(d, basis) == h.ofDouble(e, basis)
  }

  /** Equal trees have the same hash if they have no reals, or if hash_double respects ==. */
  lemma {:induction false} EqualHash(a: Json, b: Json, basis: nat, h: Hashes, same: SameDouble)
    requires Proper(a) && Proper(b) && Equal(a, b, same)
    requires (NoReals(a) && NoReals(b)) || HashRespects(h, same)
    ensures Hash(a, basis, h) == Hash(b, basis, h)
    decreases a, 1, 0
  {
    match (a, b) {
      case (JArray(es), JArray(fs)) => EqualHashElems(a, b, |es|, h.ofInt(|es|, basis), h, same);
      case (JObject(ms), JObject(ns)) =>
        EqualSorted(a, b, same);
        EqualHashMembers(a, b, |Sort(ms)|, basis, h, same);
      case _ =>
    }
  }

  lemma {:induction false} EqualHashElems(a: Json, b: Json, i: nat, basis: nat, h: Hashes, same: SameDouble)
    requires a.JArray? && b.JArray? && Proper(a) && Proper(b) && Equal(a, b, same)
    requires (NoReals(a) && NoReals(b)) || HashRespects(h, same)
    requires i <= |a.elems|
    ensures HashElems(a, i, basis, h) == HashElems(b, i, basis, h)
    decreases a, 0, i
  {
    hide Hash;
    if i > 0 {
      var e, f := a.elems[i - 1], b.elems[i - 1];
      assert e in a.elems && f in b.elems;
      EqualHashElems(a, b, i - 1, basis, h, same);
      EqualHash(e, f, HashElems(a, i - 1, basis, h), h, same);
    }
  }

  lemma {:induction false} EqualHashMembers(a: Json, b: Json, i: nat, basis: nat, h: Hashes, same: SameDouble)
    requires a.JObject? && b.JObject? && Proper(a) && Proper(b) && Equal(a, b, same)
    requires (NoReals(a) && NoReals(b)) || HashRespects(h, same)
    requires i <= |Sort(a.members)| == |Sort(b.members)|
    ensures HashMembers(a, Sort(a.members), i, basis, h) == HashMembers(b, Sort(b.members), i, basis, h)
    decreases a, 0, i
  {
    hide Equal;
    hide Sort;
    if i > 0 {
      EqualHashMembers(a, b, i - 1, basis, h, same);
      EqualSorted(a, b, same);
      var s, t := Sort(a.members)[i - 1], Sort(b.members)[i - 1];
      assert s in a.members && t in b.members;
      var before := HashMembers(a, Sort(a.members), i - 1, basis, h);
      EqualHash(s.value, t.value, h.ofString(s.name, before), h, same);
    }
  }

  ghost predicate SameHash(a: Json, b: Json, h: Hashes) {
    forall basis :: Hash(a, basis, h) == Hash(b, basis, h)
  }

  /** json_equal implies the same json_hash for all trees if and only if hash_double respects ==.
      (It hashes the bits, and 0.0 == -0.0 differ in one.) */
  lemma EqualHashIff(h: Hashes, same: SameDouble)
    ensures (forall a, b :: Proper(a) && Proper(b) && Equal(a, b, same) ==> SameHash(a, b, h)) <==> HashRespects(h, same)
  {
    if HashRespects(h, same) {
      forall a, b | Proper(a) && Proper(b) && Equal(a, b, same)
        ensures SameHash(a, b, h)
      {
        forall basis
          ensures Hash(a, basis, h) == Hash(b, basis, h)
        {
          EqualHash(a, b, basis, h, same);
        }
      }
    } else {
      var d, e, basis :| same(d, e) && h.ofDouble(d, basis) != h.ofDouble(e, basis);
      assert Hash(JReal(d), basis, h) != Hash(JReal(e), basis, h);
      assert Equal(JReal(d), JReal(e), same) && !SameHash(JReal(d), JReal(e), h);
    }
  }

  // ----- equal trees print alike when sorted

  /** "%.*g" does not tell apart what == does not. */
  ghost predicate FormatRespects(fmt: FormatDouble, same: SameDouble) {
    forall d, e :: same(d, e) ==> fmt(d) == fmt(e)
  }

  lemma {:induction false} EqualPrint(a: Json, b: Json, pretty: bool, depth: nat, fmt: FormatDouble, same: SameDouble)
    requires Proper(a) && Proper(b) && Equal(a, b, same)
    requires (NoReals(a) && NoReals(b)) || FormatRespects(fmt, same)
    ensures Print(a, Flags(pretty, true), depth, fmt) == Print(b, Flags(pretty, true), depth, fmt)
    decreases a, 1, 0
  {
    match (a, b) {
      case (JArray(es), JArray(fs)) => if es != [] { EqualPrintElems(a, b, 0, pretty, depth + 1, fmt, same); }
      case (JObject(ms), JObject(ns)) =>
        EqualSorted(a, b, same);
        EqualPrintMembers(a, b, 0, pretty, depth + 1, fmt, same);
      case _ =>
    }
  }

  lemma {:induction false} EqualPrintElems(a: Json, b: Json, i: nat, pretty: bool, depth: nat, fmt: FormatDouble, same: SameDouble)
    requires a.JArray? && b.JArray? && Proper(a) && Proper(b) && Equal(a, b, same)
    requires (NoReals(a) && NoReals(b)) || FormatRespects(fmt, same)
    requires i <= |a.elems| == |b.elems|
    ensures PrintElems(a, i, Flags(pretty, true), depth, fmt) == PrintElems(b, i, Flags(pretty, true), depth, fmt)
    decreases a, 0, |a.elems| - i
  {
    hide Print;
    if i < |a.elems| {
      assert a.elems[i] in a.elems && b.elems[i] in b.elems;
      EqualPrint(a.elems[i], b.elems[i], pretty, depth, fmt, same);
      EqualPrintElems(a, b, i + 1, pretty, depth, fmt, same);
    }
  }

  lemma {:induction false} EqualPrintMembers(a: Json, b: Json, i: nat, pretty: bool, depth: nat, fmt: FormatDouble, same: SameDouble)
    requires a.JObject? && b.JObject? && Proper(a) && Proper(b) && Equal(a, b, same)
    requires (NoReals(a) && NoReals(b)) || FormatRespects(fmt, same)
    requires i <= |Sort(a.members)| == |Sort(b.members)|
    ensures PrintMembers(a, Sort(a.members), i, Flags(pretty, true), depth, fmt)
         == PrintMembers(b, Sort(b.members), i, Flags(pretty, true), depth, fmt)
    decreases a, 0, |Sort(a.members)| - i
  {
    if i < |Sort(a.members)| {
      EqualSorted(a, b, same);
      var s, t := Sort(a.members)[i], Sort(b.members)[i];
      assert s in a.members && t in b.members;
      EqualPrint(s.value, t.value, pretty, depth, fmt, same);
      EqualPrintMembers(a, b, i + 1, pretty, depth, fmt, same);
    }
  }

  /** json_equal implies the same sorted text for all trees if and only if the format respects ==;
      it does not, since -0.0 is printed with its sign. */
  lemma EqualPrintIff(pretty: bool, fmt: FormatDouble, same: SameDouble)
    ensures (forall a, b :: Proper(a) && Proper(b) && Equal(a, b, same) ==>
               Print(a, Flags(pretty, true), 0, fmt) == Print(b, Flags(pretty, true), 0, fmt))
       <==> FormatRespects(fmt, same)
  {
    if FormatRespects(fmt, same) {
      forall a, b | Proper(a) && Proper(b) && Equal(a, b, same)
        ensures Print(a, Flags(pretty, true), 0, fmt) == Print(b, Flags(pretty, true), 0, fmt)
      {
        EqualPrint(a, b, pretty, 0, fmt, same);
      }
    } else {
      var d, e :| same(d, e) && fmt(d) != fmt(e);
      assert Equal(JReal(d), JReal(e), same);
      assert Print(JReal(d), Flags(pretty, true), 0, fmt) != Print(JReal(e), Flags(pretty, true), 0, fmt);
    }
  }

  /** Two trees without reals are json_equal if and only if their sorted texts are identical, at any
      depth and with or without indentation. */
  lemma CanonicalForm(a: Json, b: Json, pretty: bool, depth: nat, fmt: FormatDouble, same: SameDouble)
    requires Printable(a, NoReal()) && Proper(a) && Printable(b, NoReal()) && Proper(b)
    ensures Equal(a, b, same) <==> Print(a, Flags(pretty, true), depth, fmt) == Print(b, Flags(pretty, true), depth, fmt)
  {
    hide Print;
    hide Equal;
    if Equal(a, b, same) {
      PrintableNoReals(a, NoReal());
      PrintableNoReals(b, NoReal());
      EqualPrint(a, b, pretty, depth, fmt, same);
    }
    if Print(a, Flags(pretty, true), depth, fmt) == Print(b, Flags(pretty, true), depth, fmt) {
      JsonDocument.SameTextEqual(a, b, Flags(pretty, true), depth, fmt, same);
    }
  }
}
