/** The JSON writer: json_to_string and the functions under it, plain, pretty and sorted. */
module JsonPrinter {
  import opened Bytes
  import opened JsonValue
  import opened JsonCodec
  import opened JsonNumberExact

  /** JSSF_PRETTY and JSSF_SORT. */
  datatype Flags = Flags(pretty: bool, sort: bool)

  /** "%.*g" with DBL_DIG: opaque. */
  type FormatDouble = Double -> Bytes

  const SPACES_PER_LEVEL: nat := 2

  // ----- shash_sort

  ghost predicate Sorted(ms: seq<Member>) {
    forall i, j :: 0 <= i < j < |ms| ==> AtMost(ms[i].name, ms[j].name)
  }

  function Insert(m: Member, ms: seq<Member>): seq<Member> {
    if ms == [] || AtMost(m.name, ms[0].name) then [m] + ms else [ms[0]] + Insert(m, ms[1..])
  }

  /** The members in bytewise order of their names.  (qsort is not modelled: with distinct names
      every sort gives this sequence, see SortUnique.) */
  function Sort(ms: seq<Member>): (r: seq<Member>)
    ensures multiset(r) == multiset(ms)
    ensures forall m :: m in r ==> m in ms
  {
    if ms == [] then []
    else
      InsertKeeps(ms[0], Sort(ms[1..]));
      assert ms == [ms[0]] + ms[1..];
      assert forall m :: m in multiset(ms) <==> m in ms;
      Insert(ms[0], Sort(ms[1..]))
  }

  lemma {:induction false} InsertKeeps(m: Member, ms: seq<Member>)
    ensures multiset(Insert(m, ms)) == multiset{m} + multiset(ms)
    ensures forall x :: x in Insert(m, ms) <==> x == m || x in ms
  {
    if ms != [] && !AtMost(m.name, ms[0].name) {
      InsertKeeps(m, ms[1..]);
      assert ms == [ms[0]] + ms[1..];
    }
  }

  lemma {:induction false} InsertSorted(m: Member, ms: seq<Member>)
    requires Sorted(ms)
    ensures Sorted(Insert(m, ms))
  {
    if ms != [] && !AtMost(m.name, ms[0].name) {
      InsertSorted(m, ms[1..]);
      InsertKeeps(m, ms[1..]);
      AtMostTotal(m.name, ms[0].name);
      var r := Insert(m, ms[1..]);
      forall j | 0 <= j < |r| ensures AtMost(ms[0].name, r[j].name) {
        assert r[j] in r;
      }
    } else if ms != [] {
      forall j | 0 <= j < |ms| ensures AtMost(m.name, ms[j].name) {
        if j > 0 { AtMostTransitive(m.name, ms[0].name, ms[j].name); }
      }
    } else {
      AtMostTotal(m.name, m.name);
    }
  }

  lemma {:induction false} SortSorts(ms: seq<Member>)
    ensures Sorted(Sort(ms))
  {
    if ms != [] {
      SortSorts(ms[1..]);
      InsertSorted(ms[0], Sort(ms[1..]));
    }
  }

  // ----- the text

  function Indent(f: Flags, depth: nat): Bytes {
    if f.pretty then ['\n'] + Repeat(' ', SPACES_PER_LEVEL * depth) else []
  }

  function Quoted(s: Bytes): Bytes { ['"'] + Escape(s) + ['"'] }

  /** The members of an object in the order in which they are printed. */
  function Order(ms: seq<Member>, f: Flags): (r: seq<Member>)
    ensures forall m :: m in r ==> m in ms
  {
    if f.sort then Sort(ms) else ms
  }

  /** json_serialize: what it appends at nesting level `depth`. */
  function Print(j: Json, f: Flags, depth: nat, fmt: FormatDouble): Bytes
    decreases j, 3
  {
    match j
    case JNull => "null"
    case JFalse => "false"
    case JTrue => "true"
    case JInteger(n) => SignedDecimal(n)
    case JReal(d) => fmt(d)
    case JString(s) => Quoted(s)
    case JArray(es) =>
      ['['] + (if es == [] then [] else Indent(f, depth + 1) + PrintElems(j, 0, f, depth + 1, fmt)) + [']']
    case JObject(ms) =>
      ['{'] + Indent(f, depth + 1) + PrintMembers(j, Order(ms, f), 0, f, depth + 1, fmt) + ['}']
  }

  function Separator(i: nat, f: Flags, depth: nat): Bytes {
    if i > 0 then [','] + Indent(f, depth) else []
  }

  /** The elements from `i` on, each but the first behind a comma. */
  function PrintElems(j: Json, i: nat, f: Flags, depth: nat, fmt: FormatDouble): Bytes
    requires j.JArray? && i <= |j.elems|
    decreases j, 1, |j.elems| - i
  {
    if i == |j.elems| then []
    else Separator(i, f, depth) + Print(j.elems[i], f, depth, fmt) + PrintElems(j, i + 1, f, depth, fmt)
  }

  function PrintMembers(j: Json, order: seq<Member>, i: nat, f: Flags, depth: nat, fmt: FormatDouble): Bytes
    requires j.JObject? && i <= |order| && forall m :: m in order ==> m in j.members
    decreases j, 1, |order| - i
  {
    if i == |order| then []
    else
      Separator(i, f, depth) + PrintMember(j, order[i], f, depth, fmt) + PrintMembers(j, order, i + 1, f, depth, fmt)
  }

  function PrintMember(j: Json, m: Member, f: Flags, depth: nat, fmt: FormatDouble): Bytes
    requires j.JObject? && m in j.members
    decreases j, 0
  {
    Quoted(m.name) + [':'] + (if f.pretty then [' '] else []) + Print(m.value, f, depth, fmt)
  }

  // ----- the serializer object

  /** struct json_serializer, with its ds. */
  class Serializer {
    var ds: Bytes
    var depth: nat
    const flags: Flags
    const fmt: FormatDouble

    constructor (flags: Flags, fmt: FormatDouble)
      ensures this.flags == flags && this.fmt == fmt && ds == [] && depth == 0
    {
      this.flags := flags;
      this.fmt := fmt;
      ds := [];
      depth := 0;
    }

    method IndentLine()
      modifies this`ds
      ensures ds == old(ds) + Indent(flags, depth)
    {
      if flags.pretty {
        ds := ds + ['\n'];
        ds := ds + Repeat(' ', SPACES_PER_LEVEL * depth);
      }
    }

    method Serialize(j: Json)
      modifies this
      ensures ds == old(ds) + Print(j, flags, depth, fmt) && depth == old(depth)
      decreases j, 3
    {
      match j {
        case JNull => ds := ds + "null";
        case JFalse => ds := ds + "false";
        case JTrue => ds := ds + "true";
        case JObject(_) => SerializeObject(j);
        case JArray(_) => SerializeArray(j);
        case JInteger(n) => ds := ds + SignedDecimal(n);
        case JReal(d) => ds := ds + fmt(d);
        case JString(s) => ds := SerializeString(s, ds);
      }
    }

    method SerializeObjectMember(i: nat, j: Json, m: Member)
      requires j.JObject? && m in j.members
      modifies this
      ensures ds == old(ds) + (Separator(i, flags, depth) + PrintMember(j, m, flags, depth, fmt))
      ensures depth == old(depth)
      decreases j, 1, 0
    {
      SeparateFrom(i);
      ghost var separated := ds;
      ds := SerializeString(m.name, ds);
      ds := ds + [':'];
      ghost var named := ds;
      if flags.pretty {
        ds := ds + [' '];
      }
      assert ds == named + (if flags.pretty then [' '] else []);
      Serialize(m.value);
      Regroup5(separated, Quoted(m.name), [':'], if flags.pretty then [' '] else [], Print(m.value, flags, depth, fmt));
      Regroup(old(ds), Separator(i, flags, depth), PrintMember(j, m, flags, depth, fmt));
    }

    /** The comma and the new line before every item but the first. */
    method SeparateFrom(i: nat)
      modifies this`ds
      ensures ds == old(ds) + Separator(i, flags, depth)
    {
      if i > 0 {
        ds := ds + [','];
        IndentLine();
      }
    }

    method SerializeMembers(j: Json, order: seq<Member>)
      requires j.JObject? && forall m :: m in order ==> m in j.members
      modifies this
      ensures ds == old(ds) + PrintMembers(j, order, 0, flags, depth, fmt) && depth == old(depth)
      decreases j, 1, 1
    {
      var i := 0;
      while i < |order|
        invariant i <= |order| && depth == old(depth)
        invariant ds + PrintMembers(j, order, i, flags, depth, fmt) == old(ds) + PrintMembers(j, order, 0, flags, depth, fmt)
      {
        Regroup(ds, Separator(i, flags, depth) + PrintMember(j, order[i], flags, depth, fmt),
                PrintMembers(j, order, i + 1, flags, depth, fmt));
        SerializeObjectMember(i, j, order[i]);
        i := i + 1;
      }
      assert ds + [] == ds;
    }

    method SerializeObject(j: Json)
      requires j.JObject?
      modifies this
      ensures ds == old(ds) + Print(j, flags, depth, fmt) && depth == old(depth)
      decreases j, 2
    {
      hide PrintMembers;
      var order := if flags.sort then Sort(j.members) else j.members;
      ds := ds + ['{'];
      depth := depth + 1;
      IndentLine();
      ghost var body := PrintMembers(j, order, 0, flags, depth, fmt);
      SerializeMembers(j, order);
      Regroup5(old(ds), ['{'], Indent(flags, depth), body, ['}']);
      ds := ds + ['}'];
      depth := depth - 1;
    }

    method SerializeArray(j: Json)
      requires j.JArray?
      modifies this
      ensures ds == old(ds) + Print(j, flags, depth, fmt) && depth == old(depth)
      decreases j, 2
    {
      ds := ds + ['['];
      depth := depth + 1;
      if |j.elems| > 0 {
        IndentLine();
        SerializeElems(j);
        Regroup5(old(ds), ['['], Indent(flags, depth), PrintElems(j, 0, flags, depth, fmt), [']']);
        Regroup4(['['], Indent(flags, depth), PrintElems(j, 0, flags, depth, fmt), [']']);
      }
      depth := depth - 1;
      ds := ds + [']'];
    }

    method SerializeElems(j: Json)
      requires j.JArray?
      modifies this
      ensures ds == old(ds) + PrintElems(j, 0, flags, depth, fmt) && depth == old(depth)
      decreases j, 1
    {
      var i := 0;
      while i < |j.elems|
        invariant i <= |j.elems| && depth == old(depth)
        invariant ds + PrintElems(j, i, flags, depth, fmt) == old(ds) + PrintElems(j, 0, flags, depth, fmt)
      {
        ghost var before := ds;
        SeparateFrom(i);
        Serialize(j.elems[i]);
        Regroup(before, Separator(i, flags, depth), Print(j.elems[i], flags, depth, fmt));
        Regroup(before, Separator(i, flags, depth) + Print(j.elems[i], flags, depth, fmt),
                PrintElems(j, i + 1, flags, depth, fmt));
        i := i + 1;
      }
      assert ds + [] == ds;
    }
  }

  lemma Regroup5(a: Bytes, b: Bytes, c: Bytes, d: Bytes, e: Bytes)
    ensures a + b + c + d + e == a + (b + c + d + e)
  {
  }

  lemma Regroup4(a: Bytes, b: Bytes, c: Bytes, d: Bytes)
    ensures a + b + c + d == a + (b + c) + d
  {
  }

  /** json_to_string. */
  method ToString(j: Json, flags: Flags, fmt: FormatDouble) returns (s: Bytes)
    ensures s == Print(j, flags, 0, fmt)
  {
    var serializer := new Serializer(flags, fmt);
    serializer.Serialize(j);
    s := serializer.ds;
  }
}
