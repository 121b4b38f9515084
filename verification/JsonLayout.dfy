/** White space in what the writer writes: none without JSSF_PRETTY, and with it only between
    tokens, one line for each element and each member. */
module JsonLayout {
  import opened Bytes
  import opened JsonValue
  import opened JsonPrinter
  import JsonCodec
  import JsonNumberExact

  // ----- dropping white space outside quotes

  /** Outside quotes, between them, or behind a backslash between them. */
  datatype Scan = Outside | Inside | Escape

  function ScanByte(at: Scan, b: Byte): Scan {
    match at
    case Outside => if b == '"' then Inside else Outside
    case Inside => if b == '\\' then Escape else if b == '"' then Outside else Inside
    case Escape => Inside
  }

  function ScanAll(at: Scan, s: Bytes): Scan
    decreases |s|
  {
    if s == [] then at else ScanAll(ScanByte(at, s[0]), s[1..])
  }

  predicate IsWhite(b: Byte) { b in {' ', '\t', '\n', '\r'} }

  /** The text without the white space outside quotes. */
  function Squeezed(at: Scan, s: Bytes): Bytes
    decreases |s|
  {
    if s == [] then []
    else (if at == Outside && IsWhite(s[0]) then [] else [s[0]]) + Squeezed(ScanByte(at, s[0]), s[1..])
  }

  lemma {:induction false} ScanConcat(at: Scan, a: Bytes, b: Bytes)
    ensures ScanAll(at, a + b) == ScanAll(ScanAll(at, a), b)
    ensures Squeezed(at, a + b) == Squeezed(at, a) + Squeezed(ScanAll(at, a), b)
    decreases |a|
  {
    if a == [] {
      assert a + b == b;
    } else {
      var next, rest := ScanByte(at, a[0]), a[1..];
      var kept := if at == Outside && IsWhite(a[0]) then [] else [a[0]];
      assert (a + b)[0] == a[0] && (a + b)[1..] == rest + b;
      ScanConcat(next, rest, b);
      assert kept + (Squeezed(next, rest) + Squeezed(ScanAll(next, rest), b))
          == kept + Squeezed(next, rest) + Squeezed(ScanAll(next, rest), b);
    }
  }

  /** No new line, and no other control character. */
  predicate NoControl(s: Bytes) {
    forall i :: 0 <= i < |s| ==> s[i] as int >= 0x20
  }

  /** `s` is `t` with white space between the tokens. */
  predicate Spaced(s: Bytes, t: Bytes) {
    ScanAll(Outside, s) == Outside && Squeezed(Outside, s) == t && NoControl(t)
  }

  lemma SpacedConcat(a: Bytes, x: Bytes, b: Bytes, y: Bytes)
    requires Spaced(a, x) && Spaced(b, y)
    ensures Spaced(a + b, x + y)
  {
    ScanConcat(Outside, a, b);
  }

  lemma SpacedThree(a: Bytes, x: Bytes, b: Bytes, y: Bytes, c: Bytes, z: Bytes)
    requires Spaced(a, x) && Spaced(b, y) && Spaced(c, z)
    ensures Spaced(a + b + c, x + y + z)
  {
    SpacedConcat(a, x, b, y);
    SpacedConcat(a + b, x + y, c, z);
  }

  lemma {:induction false} SpacedPlain(s: Bytes)
    requires forall i :: 0 <= i < |s| ==> s[i] as int > 0x20 && s[i] != '"'
    ensures Spaced(s, s)
  {
    if s != [] {
      SpacedPlain(s[1..]);
      assert s == [s[0]] + s[1..];
    }
  }

  lemma {:induction false} SpacedWhite(s: Bytes)
    requires forall i :: 0 <= i < |s| ==> IsWhite(s[i])
    ensures Spaced(s, [])
  {
    if s != [] { SpacedWhite(s[1..]); }
  }

  lemma InsideByte(c: Byte)
    ensures var e := JsonCodec.EscapeByte(c);
            ScanAll(Inside, e) == Inside && Squeezed(Inside, e) == e && NoControl(e)
  {
    var e := JsonCodec.EscapeByte(c);
    if |e| == 6 {
      HexDigit(c as int / 16);
      HexDigit(c as int % 16);
      assert e == ['\\', 'u'] + ['0', '0'] + [e[4], e[5]];
      InsideTwo('0', '0');
      InsideTwo(e[4], e[5]);
      ScanConcat(Inside, ['\\', 'u'] + ['0', '0'], [e[4], e[5]]);
      ScanConcat(Inside, ['\\', 'u'], ['0', '0']);
      InsideEscape('u');
    } else if |e| == 2 {
      assert e == ['\\', e[1]];
      InsideEscape(e[1]);
    } else {
      assert e == [c] && e[1..] == [];
    }
  }

  lemma HexDigit(d: nat)
    requires d < 16
    ensures var c := JsonCodec.HEX_DIGITS[d]; c as int > 0x20 && c != '"' && c != '\\'
  {
    JsonCodec.HexDigitsInverse(d);
  }

  lemma InsideOne(at: Scan, b: Byte)
    requires at != Outside
    ensures ScanAll(at, [b]) == ScanByte(at, b) && Squeezed(at, [b]) == [b]
  {
    assert [b][1..] == [];
    assert ScanAll(ScanByte(at, b), []) == ScanByte(at, b) && Squeezed(ScanByte(at, b), []) == [];
  }

  lemma InsideTwo(a: Byte, b: Byte)
    requires a != '"' && a != '\\' && b != '"' && b != '\\'
    ensures ScanAll(Inside, [a, b]) == Inside && Squeezed(Inside, [a, b]) == [a, b]
  {
    InsideOne(Inside, a);
    InsideOne(Inside, b);
    ScanConcat(Inside, [a], [b]);
    assert [a] + [b] == [a, b];
  }

  lemma InsideEscape(a: Byte)
    ensures ScanAll(Inside, ['\\', a]) == Inside && Squeezed(Inside, ['\\', a]) == ['\\', a]
  {
    InsideOne(Inside, '\\');
    InsideOne(Escape, a);
    ScanConcat(Inside, ['\\'], [a]);
    assert ['\\'] + [a] == ['\\', a];
  }

  lemma {:induction false} InsideAll(s: Bytes)
    ensures var e := JsonCodec.Escape(s);
            ScanAll(Inside, e) == Inside && Squeezed(Inside, e) == e && NoControl(e)
  {
    if s != [] {
      InsideByte(s[0]);
      InsideAll(s[1..]);
      ScanConcat(Inside, JsonCodec.EscapeByte(s[0]), JsonCodec.Escape(s[1..]));
    }
  }

  lemma SpacedQuoted(s: Bytes)
    ensures Spaced(Quoted(s), Quoted(s))
  {
    var e := JsonCodec.Escape(s);
    InsideAll(s);
    ScanConcat(Outside, ['"'] + e, ['"']);
    ScanConcat(Outside, ['"'], e);
    assert ['"'][1..] == [];
  }

  // ----- the text of a tree

  /** What "%.*g" prints is free of white space and quotes. */
  ghost predicate PlainFormat(fmt: FormatDouble) {
    forall d, i :: 0 <= i < |fmt(d)| ==> fmt(d)[i] as int > 0x20 && fmt(d)[i] != '"'
  }

  function Plain(f: Flags): Flags { f.(pretty := false) }

  lemma SpacedIndent(f: Flags, depth: nat)
    ensures Spaced(Indent(f, depth), [])
  {
    SpacedWhite(Indent(f, depth));
  }

  lemma SpacedSeparator(i: nat, f: Flags, depth: nat, d: nat)
    ensures Spaced(Separator(i, f, depth), Separator(i, Plain(f), d))
  {
    if i > 0 {
      SpacedPlain([',']);
      SpacedIndent(f, depth);
      SpacedConcat([','], [','], Indent(f, depth), []);
      assert [','] + [] == [','];
    } else {
      SpacedWhite([]);
    }
  }

  lemma SpacedNumber(n: int)
    ensures Spaced(JsonNumberExact.SignedDecimal(n), JsonNumberExact.SignedDecimal(n))
  {
    var v := if n < 0 then -n else n;
    JsonNumberExact.DecimalDigits(v);
    SpacedPlain(JsonNumberExact.SignedDecimal(n));
  }

  /** The text of a tree is the plain text of it with white space between tokens; the plain text has
      no control character.  (`d` stands for any depth: the plain text does not depend on it.) */
  lemma {:induction false} PrintSpaced(j: Json, f: Flags, depth: nat, d: nat, fmt: FormatDouble)
    requires PlainFormat(fmt)
    ensures Spaced(Print(j, f, depth, fmt), Print(j, Plain(f), d, fmt))
    decreases j, 3
  {
    hide Spaced;
    match j {
      case JNull => SpacedPlain("null");
      case JFalse => SpacedPlain("false");
      case JTrue => SpacedPlain("true");
      case JInteger(n) => SpacedNumber(n);
      case JReal(r) => SpacedPlain(fmt(r));
      case JString(s) => SpacedQuoted(s);
      case JArray(es) =>
        ElemsSpaced(j, 0, f, depth + 1, d + 1, fmt);
        BracketsSpaced('[', es != [], f, depth + 1, d + 1, PrintElems(j, 0, f, depth + 1, fmt),
                       PrintElems(j, 0, Plain(f), d + 1, fmt), ']');
        ArrayIs(j, f, depth, fmt);
        ArrayIs(j, Plain(f), d, fmt);
      case JObject(ms) =>
        MembersSpaced(j, Order(ms, f), 0, f, depth + 1, d + 1, fmt);
        BracketsSpaced('{', true, f, depth + 1, d + 1, PrintMembers(j, Order(ms, f), 0, f, depth + 1, fmt),
                       PrintMembers(j, Order(ms, f), 0, Plain(f), d + 1, fmt), '}');
    }
  }

  lemma ArrayIs(j: Json, f: Flags, depth: nat, fmt: FormatDouble)
    requires j.JArray?
    ensures Print(j, f, depth, fmt)
         == ['['] + (if j.elems != [] then Indent(f, depth + 1) else []) + PrintElems(j, 0, f, depth + 1, fmt) + [']']
  {
  }

  lemma BracketsSpaced(open: Byte, indent: bool, f: Flags, depth: nat, d: nat, body: Bytes, plain: Bytes, close: Byte)
    requires open in {'[', '{'} && close in {']', '}'} && Spaced(body, plain)
    ensures Spaced([open] + (if indent then Indent(f, depth) else []) + body + [close],
                   [open] + (if indent then Indent(Plain(f), d) else []) + plain + [close])
  {
    var space := if indent then Indent(f, depth) else [];
    SpacedPlain([open]);
    SpacedPlain([close]);
    SpacedIndent(f, depth);
    SpacedWhite([]);
    SpacedThree([open], [open], space, [], body, plain);
    SpacedConcat([open] + space + body, [open] + [] + plain, [close], [close]);
  }

  lemma {:induction false} ElemsSpaced(j: Json, i: nat, f: Flags, depth: nat, d: nat, fmt: FormatDouble)
    requires PlainFormat(fmt) && j.JArray? && i <= |j.elems|
    ensures Spaced(PrintElems(j, i, f, depth, fmt), PrintElems(j, i, Plain(f), d, fmt))
    decreases j, 1, |j.elems| - i
  {
    hide Spaced;
    if i == |j.elems| {
      SpacedWhite([]);
    } else {
      SpacedSeparator(i, f, depth, d);
      PrintSpaced(j.elems[i], f, depth, d, fmt);
      ElemsSpaced(j, i + 1, f, depth, d, fmt);
      SpacedThree(Separator(i, f, depth), Separator(i, Plain(f), d),
                  Print(j.elems[i], f, depth, fmt), Print(j.elems[i], Plain(f), d, fmt),
                  PrintElems(j, i + 1, f, depth, fmt), PrintElems(j, i + 1, Plain(f), d, fmt));
    }
  }

  lemma {:induction false} MembersSpaced(j: Json, order: seq<Member>, i: nat, f: Flags, depth: nat, d: nat, fmt: FormatDouble)
    requires PlainFormat(fmt) && j.JObject? && i <= |order| && forall m :: m in order ==> m in j.members
    ensures Spaced(PrintMembers(j, order, i, f, depth, fmt), PrintMembers(j, order, i, Plain(f), d, fmt))
    decreases j, 1, |order| - i
  {
    hide Spaced;
    if i == |order| {
      SpacedWhite([]);
    } else {
      SpacedSeparator(i, f, depth, d);
      MemberSpaced(j, order[i], f, depth, d, fmt);
      MembersSpaced(j, order, i + 1, f, depth, d, fmt);
      SpacedThree(Separator(i, f, depth), Separator(i, Plain(f), d),
                  PrintMember(j, order[i], f, depth, fmt), PrintMember(j, order[i], Plain(f), d, fmt),
                  PrintMembers(j, order, i + 1, f, depth, fmt), PrintMembers(j, order, i + 1, Plain(f), d, fmt));
    }
  }

  lemma {:induction false} MemberSpaced(j: Json, m: Member, f: Flags, depth: nat, d: nat, fmt: FormatDouble)
    requires PlainFormat(fmt) && j.JObject? && m in j.members
    ensures Spaced(PrintMember(j, m, f, depth, fmt), PrintMember(j, m, Plain(f), d, fmt))
    decreases j, 0
  {
    hide Spaced;
    var space := if f.pretty then [' '] else [];
    SpacedQuoted(m.name);
    SpacedPlain([':']);
    SpacedWhite(space);
    PrintSpaced(m.value, f, depth, d, fmt);
    SpacedThree(Quoted(m.name), Quoted(m.name), [':'], [':'], space, []);
    SpacedConcat(Quoted(m.name) + [':'] + space, Quoted(m.name) + [':'] + [],
                 Print(m.value, f, depth, fmt), Print(m.value, Plain(f), d, fmt));
  }

  // ----- without JSSF_PRETTY

  /** Nothing is dropped from a text that has no white space outside quotes. */
  lemma {:induction false} NothingDropped(at: Scan, s: Bytes)
    ensures |Squeezed(at, s)| <= |s|
    ensures Squeezed(at, s) == s ==> forall i :: 0 <= i < |s| && IsWhite(s[i]) ==> ScanAll(at, s[..i]) != Outside
    decreases |s|
  {
    if s != [] {
      NothingDropped(ScanByte(at, s[0]), s[1..]);
      if Squeezed(at, s) == s {
        assert Squeezed(ScanByte(at, s[0]), s[1..]) == s[1..];
        forall i | 0 <= i < |s| && IsWhite(s[i])
          ensures ScanAll(at, s[..i]) != Outside
        {
          if i > 0 {
            assert s[..i][0] == s[0] && s[..i][1..] == s[1..][..i - 1];
            assert IsWhite(s[1..][i - 1]);
          }
        }
      }
    }
  }

  /** Without JSSF_PRETTY the text of a tree has no new line, nor any other control character, and no
      white space outside quotes. */
  lemma PlainIsOneLine(j: Json, f: Flags, depth: nat, fmt: FormatDouble)
    requires PlainFormat(fmt) && !f.pretty
    ensures var s := Print(j, f, depth, fmt);
            && '\n' !in s && NoControl(s)
            && forall i :: 0 <= i < |s| && IsWhite(s[i]) ==> ScanAll(Outside, s[..i]) != Outside
  {
    PrintSpaced(j, f, depth, depth, fmt);
    assert Plain(f) == f;
    NothingDropped(Outside, Print(j, f, depth, fmt));
  }

  // ----- with it

  /** Without the white space outside quotes the pretty text is the plain one. */
  lemma PrettySqueezed(j: Json, f: Flags, depth: nat, fmt: FormatDouble)
    requires PlainFormat(fmt)
    ensures Squeezed(Outside, Print(j, f, depth, fmt)) == Print(j, f.(pretty := false), 0, fmt)
  {
    PrintSpaced(j, f, depth, 0, fmt);
  }

  function NewLine(depth: nat): Bytes { ['\n'] + Repeat(' ', 2 * depth) }

  lemma {:induction false} ElemsFrom(j: Json, f: Flags, depth: nat, fmt: FormatDouble, k: nat, i: nat)
    returns (before: Bytes, after: Bytes)
    requires j.JArray? && f.pretty && k <= i < |j.elems|
    ensures PrintElems(j, k, f, depth, fmt)
         == before + (if i > 0 then NewLine(depth) else []) + Print(j.elems[i], f, depth, fmt) + after
    ensures i > 0 ==> before != [] && before[|before| - 1] == ','
    ensures i == 0 ==> before == []
    ensures if i + 1 == |j.elems| then after == [] else after != [] && after[0] == ','
    decreases i - k
  {
    hide Print;
    if k == i {
      before, after := if i > 0 then [','] else [], PrintElems(j, i + 1, f, depth, fmt);
    } else {
      before, after := ElemsFrom(j, f, depth, fmt, k + 1, i);
      var head := Separator(k, f, depth) + Print(j.elems[k], f, depth, fmt);
      Regroup5(head, before, if i > 0 then NewLine(depth) else [], Print(j.elems[i], f, depth, fmt), after);
      before := head + before;
    }
  }

  /** An item among others, behind its line break. */
  lemma Placed(open: Byte, line: Bytes, body: Bytes, x: Bytes, item: Bytes, y: Bytes, close: Byte, first: bool)
    returns (before: Bytes, after: Bytes)
    requires body == x + (if first then [] else line) + item + y && (first ==> x == [])
    requires !first ==> x != [] && x[|x| - 1] == ','
    requires y != [] ==> y[0] == ','
    ensures [open] + line + body + [close] == before + line + item + after
    ensures before != [] && before[|before| - 1] == (if first then open else ',')
    ensures after != [] && after[0] == (if y == [] then close else ',')
  {
    after := y + [close];
    if first {
      before := [open];
      assert body == item + y;
      assert [open] + line + (item + y) + [close] == [open] + line + item + (y + [close]);
    } else {
      before := [open] + line + x;
      assert [open] + line + (x + line + item + y) + [close] == ([open] + line + x) + line + item + (y + [close]);
    }
  }

  /** Every element of an array starts a line of its own, indented by two blanks for each level. */
  lemma ElementLine(j: Json, f: Flags, depth: nat, fmt: FormatDouble, i: nat) returns (before: Bytes, after: Bytes)
    requires j.JArray? && f.pretty && i < |j.elems|
    ensures Print(j, f, depth, fmt)
         == before + NewLine(depth + 1) + Print(j.elems[i], f, depth + 1, fmt) + after
    ensures before != [] && before[|before| - 1] == (if i == 0 then '[' else ',')
    ensures after != [] && after[0] == (if i + 1 == |j.elems| then ']' else ',')
  {
    hide Print;
    hide Repeat;
    var x, y := ElemsFrom(j, f, depth + 1, fmt, 0, i);
    ArrayIs(j, f, depth, fmt);
    before, after := Placed('[', NewLine(depth + 1), PrintElems(j, 0, f, depth + 1, fmt), x,
                            Print(j.elems[i], f, depth + 1, fmt), y, ']', i == 0);
  }

  lemma {:induction false} MembersFrom(j: Json, order: seq<Member>, f: Flags, depth: nat, fmt: FormatDouble, k: nat, i: nat)
    returns (before: Bytes, after: Bytes)
    requires j.JObject? && (forall m :: m in order ==> m in j.members) && f.pretty && k <= i < |order|
    ensures PrintMembers(j, order, k, f, depth, fmt)
         == before + (if i > 0 then NewLine(depth) else []) + PrintMember(j, order[i], f, depth, fmt) + after
    ensures i > 0 ==> before != [] && before[|before| - 1] == ','
    ensures i == 0 ==> before == []
    ensures if i + 1 == |order| then after == [] else after != [] && after[0] == ','
    decreases i - k
  {
    hide PrintMember;
    if k == i {
      before, after := if i > 0 then [','] else [], PrintMembers(j, order, i + 1, f, depth, fmt);
    } else {
      before, after := MembersFrom(j, order, f, depth, fmt, k + 1, i);
      var head := Separator(k, f, depth) + PrintMember(j, order[k], f, depth, fmt);
      Regroup5(head, before, if i > 0 then NewLine(depth) else [], PrintMember(j, order[i], f, depth, fmt), after);
      before := head + before;
    }
  }

  /** So does every member of an object, with a colon and a blank behind its name. */
  lemma MemberLine(j: Json, f: Flags, depth: nat, fmt: FormatDouble, i: nat) returns (before: Bytes, after: Bytes)
    requires j.JObject? && f.pretty && i < |if f.sort then Sort(j.members) else j.members|
    ensures var m := (if f.sort then Sort(j.members) else j.members)[i];
            Print(j, f, depth, fmt)
            == before + NewLine(depth + 1) + (Quoted(m.name) + [':', ' '] + Print(m.value, f, depth + 1, fmt)) + after
    ensures before != [] && before[|before| - 1] == (if i == 0 then '{' else ',')
    ensures after != [] && after[0] == (if i + 1 == |if f.sort then Sort(j.members) else j.members| then '}' else ',')
  {
    hide Print;
    hide PrintMember;
    hide PrintMembers;
    hide Repeat;
    hide Sort;
    var order := Order(j.members, f);
    var x, y := MembersFrom(j, order, f, depth + 1, fmt, 0, i);
    MemberIs(j, order[i], f, depth + 1, fmt);
    ObjectIs(j, f, depth, fmt);
    before, after := Placed('{', NewLine(depth + 1), PrintMembers(j, order, 0, f, depth + 1, fmt), x,
                            PrintMember(j, order[i], f, depth + 1, fmt), y, '}', i == 0);
  }

  lemma MemberIs(j: Json, m: Member, f: Flags, depth: nat, fmt: FormatDouble)
    requires j.JObject? && m in j.members && f.pretty
    ensures PrintMember(j, m, f, depth, fmt) == Quoted(m.name) + [':', ' '] + Print(m.value, f, depth, fmt)
  {
    hide Print;
    assert [':'] + [' '] == [':', ' '];
    assert Quoted(m.name) + [':'] + [' '] == Quoted(m.name) + ([':'] + [' ']);
  }

  lemma ObjectIs(j: Json, f: Flags, depth: nat, fmt: FormatDouble)
    requires j.JObject?
    ensures Print(j, f, depth, fmt)
         == ['{'] + Indent(f, depth + 1) + PrintMembers(j, Order(j.members, f), 0, f, depth + 1, fmt) + ['}']
  {
  }

  // ----- and nothing else does

  function NewLines(s: Bytes): nat {
    if s == [] then 0 else (if s[0] == '\n' then 1 else 0) + NewLines(s[1..])
  }

  lemma {:induction false} NewLinesConcat(a: Bytes, b: Bytes)
    ensures NewLines(a + b) == NewLines(a) + NewLines(b)
  {
    if a == [] {
      assert a + b == b;
    } else {
      assert (a + b)[1..] == a[1..] + b;
      NewLinesConcat(a[1..], b);
    }
  }

  lemma {:induction false} NewLinesNone(s: Bytes)
    requires '\n' !in s
    ensures NewLines(s) == 0
  {
    if s != [] { NewLinesNone(s[1..]); }
  }

  /** How many elements and members there are in a tree, an empty object counting as one. */
  function Items(j: Json): nat {
    match j
    case JArray(es) => |es| + ItemsOfElems(es)
    case JObject(ms) => (if ms == [] then 1 else |ms|) + ItemsOfMembers(ms)
    case _ => 0
  }

  function ItemsOfElems(es: seq<Json>): nat {
    if |es| == 0 then 0 else Items(es[0]) + ItemsOfElems(es[1..])
  }

  function ItemsOfMembers(ms: seq<Member>): nat {
    if |ms| == 0 then 0 else Items(ms[0].value) + ItemsOfMembers(ms[1..])
  }

  lemma {:induction false} ItemsInserted(m: Member, ms: seq<Member>)
    ensures ItemsOfMembers(Insert(m, ms)) == Items(m.value) + ItemsOfMembers(ms) && |Insert(m, ms)| == |ms| + 1
  {
    if ms == [] || AtMost(m.name, ms[0].name) {
      assert ([m] + ms)[1..] == ms;
    } else {
      ItemsInserted(m, ms[1..]);
      assert ([ms[0]] + Insert(m, ms[1..]))[1..] == Insert(m, ms[1..]);
    }
  }

  lemma {:induction false} ItemsSorted(ms: seq<Member>)
    ensures ItemsOfMembers(Sort(ms)) == ItemsOfMembers(ms) && |Sort(ms)| == |ms|
  {
    if ms != [] {
      ItemsSorted(ms[1..]);
      ItemsInserted(ms[0], Sort(ms[1..]));
    }
  }

  /** With JSSF_PRETTY there is one new line for each element and each member in the whole tree, and
      one in each empty object. */
  lemma {:induction false} LineCount(j: Json, f: Flags, depth: nat, fmt: FormatDouble)
    requires PlainFormat(fmt) && f.pretty
    ensures NewLines(Print(j, f, depth, fmt)) == Items(j)
    decreases j, 3
  {
    if j.JArray? {
      ElemLines(j, 0, f, depth + 1, fmt);
      ArrayLines(j, f, depth, fmt);
    } else if j.JObject? {
      MemberLines(j, Order(j.members, f), 0, f, depth + 1, fmt);
      ObjectLines(j, f, depth, fmt);
    } else {
      PrintSpaced(j, f, depth, depth, fmt);
      assert Print(j, f, depth, fmt) == Print(j, Plain(f), depth, fmt);
      NewLinesNone(Print(j, f, depth, fmt));
    }
  }

  lemma ArrayLines(j: Json, f: Flags, depth: nat, fmt: FormatDouble)
    requires j.JArray? && f.pretty
    requires NewLines(PrintElems(j, 0, f, depth + 1, fmt)) + (if j.elems != [] then 1 else 0)
          == |j.elems| + ItemsOfElems(j.elems[0..])
    ensures NewLines(Print(j, f, depth, fmt)) == Items(j)
  {
    ArrayIs(j, f, depth, fmt);
    assert j.elems[0..] == j.elems;
    hide Print;
    hide PrintElems;
    NewLinesBrackets('[', if j.elems == [] then [] else Indent(f, depth + 1), PrintElems(j, 0, f, depth + 1, fmt), ']');
    NewLinesNone([]);
    NewLinesIndent(f, depth + 1);
  }

  lemma ObjectLines(j: Json, f: Flags, depth: nat, fmt: FormatDouble)
    requires j.JObject? && f.pretty
    requires var order := Order(j.members, f);
             NewLines(PrintMembers(j, order, 0, f, depth + 1, fmt)) + (if order != [] then 1 else 0)
             == |order| + ItemsOfMembers(order[0..])
    ensures NewLines(Print(j, f, depth, fmt)) == Items(j)
  {
    ObjectIs(j, f, depth, fmt);
    ItemsSorted(j.members);
    hide Print;
    hide PrintMembers;
    var order := Order(j.members, f);
    assert order[0..] == order;
    NewLinesBrackets('{', Indent(f, depth + 1), PrintMembers(j, order, 0, f, depth + 1, fmt), '}');
    NewLinesIndent(f, depth + 1);
  }

  lemma NewLinesBrackets(open: Byte, space: Bytes, body: Bytes, close: Byte)
    requires open != '\n' && close != '\n'
    ensures NewLines([open] + space + body + [close]) == NewLines(space) + NewLines(body)
  {
    NewLinesConcat([open] + space + body, [close]);
    NewLinesConcat([open] + space, body);
    NewLinesConcat([open], space);
    NewLinesNone([open]);
    NewLinesNone([close]);
  }

  lemma NewLinesIndent(f: Flags, depth: nat)
    requires f.pretty
    ensures NewLines(Indent(f, depth)) == 1
  {
    assert Indent(f, depth)[1..] == Repeat(' ', 2 * depth);
    NewLinesNone(Repeat(' ', 2 * depth));
  }

  lemma NewLinesSeparator(i: nat, f: Flags, depth: nat)
    requires f.pretty
    ensures NewLines(Separator(i, f, depth)) == if i > 0 then 1 else 0
  {
    if i > 0 {
      NewLinesConcat([','], Indent(f, depth));
      NewLinesNone([',']);
      NewLinesIndent(f, depth);
    }
  }

  lemma {:induction false} ElemLines(j: Json, i: nat, f: Flags, depth: nat, fmt: FormatDouble)
    requires PlainFormat(fmt) && f.pretty && j.JArray? && i <= |j.elems|
    ensures NewLines(PrintElems(j, i, f, depth, fmt)) + (if i == 0 && j.elems != [] then 1 else 0)
         == |j.elems| - i + ItemsOfElems(j.elems[i..])
    decreases j, 1, |j.elems| - i
  {
    if i < |j.elems| {
      LineCount(j.elems[i], f, depth, fmt);
      hide Print;
      ElemLines(j, i + 1, f, depth, fmt);
      var head := Separator(i, f, depth) + Print(j.elems[i], f, depth, fmt);
      NewLinesConcat(head, PrintElems(j, i + 1, f, depth, fmt));
      NewLinesConcat(Separator(i, f, depth), Print(j.elems[i], f, depth, fmt));
      NewLinesSeparator(i, f, depth);
      assert j.elems[i..][1..] == j.elems[i + 1..];
    }
  }

  lemma {:induction false} MemberLines(j: Json, order: seq<Member>, i: nat, f: Flags, depth: nat, fmt: FormatDouble)
    requires PlainFormat(fmt) && f.pretty && j.JObject? && i <= |order| && forall m :: m in order ==> m in j.members
    ensures NewLines(PrintMembers(j, order, i, f, depth, fmt)) + (if i == 0 && order != [] then 1 else 0)
         == |order| - i + ItemsOfMembers(order[i..])
    decreases j, 1, |order| - i
  {
    if i < |order| {
      var m := order[i];
      assert m in order;
      LineCount(m.value, f, depth, fmt);
      MemberIs(j, m, f, depth, fmt);
      hide Print;
      hide PrintMember;
      NameIsOneLine(m.name, Print(m.value, f, depth, fmt));
      MemberLines(j, order, i + 1, f, depth, fmt);
      var head := Separator(i, f, depth) + PrintMember(j, m, f, depth, fmt);
      NewLinesConcat(head, PrintMembers(j, order, i + 1, f, depth, fmt));
      NewLinesConcat(Separator(i, f, depth), PrintMember(j, m, f, depth, fmt));
      NewLinesSeparator(i, f, depth);
      assert order[i..][1..] == order[i + 1..];
    }
  }

  lemma NameIsOneLine(name: Bytes, value: Bytes)
    ensures NewLines(Quoted(name) + [':', ' '] + value) == NewLines(value)
  {
    SpacedQuoted(name);
    NewLinesNone(Quoted(name));
    NewLinesNone([':', ' ']);
    NewLinesConcat(Quoted(name) + [':', ' '], value);
    NewLinesConcat(Quoted(name), [':', ' ']);
  }
}
