/** Documents: the round trip of whole texts, and the canonical forms. */
module JsonDocument {
  import opened Bytes
  import opened JsonValue
  import opened JsonParser
  import opened JsonLexer
  import opened JsonPrinter
  import opened JsonGrammar
  import opened JsonRoundTrip
  import JsonCodec

  // ----- the printed text is a C string

  /** The text of these reals holds no NUL. */
  ghost predicate NulFreeReals(fmt: FormatDouble, good: Double -> bool) {
    forall d :: good(d) ==> NulFree(fmt(d))
  }

  lemma {:induction false} PrintNulFree(j: Json, f: Flags, depth: nat, fmt: FormatDouble, good: Double -> bool)
    requires Printable(j, good) && NulFreeReals(fmt, good)
    ensures NulFree(Print(j, f, depth, fmt))
    decreases j, 3
  {
    hide NulFree;
    hide Quoted;
    hide Indent;
    WordsNulFree();
    match j {
      case JInteger(n) => DecimalText(n);
      case JString(s) => QuotedNulFree(s);
      case JArray(es) =>
        ElemsNulFree(j, 0, f, depth + 1, fmt, good);
        ArrayText(j, f, depth, fmt);
        BracketsNulFree('[', es != [], f, depth + 1, PrintElems(j, 0, f, depth + 1, fmt), ']');
      case JObject(ms) =>
        MembersNulFree(j, Order(ms, f), 0, f, depth + 1, fmt, good);
        BracketsNulFree('{', true, f, depth + 1, PrintMembers(j, Order(ms, f), 0, f, depth + 1, fmt), '}');
      case _ =>
    }
  }

  lemma WordsNulFree()
    ensures NulFree("null") && NulFree("false") && NulFree("true")
  {
  }

  lemma QuotedNulFree(s: Bytes)
    ensures NulFree(Quoted(s))
  {
    EscapeIsText(s);
    NulFreeConcat(['"'], JsonCodec.Escape(s), ['"']);
  }

  lemma BracketsNulFree(open: Byte, indent: bool, f: Flags, depth: nat, body: Bytes, close: Byte)
    requires open in {'[', '{'} && close in {']', '}'} && NulFree(body)
    ensures NulFree([open] + (if indent then Indent(f, depth) else []) + body + [close])
  {
    NulFreeConcat([open] + (if indent then Indent(f, depth) else []), body, [close]);
  }

  lemma {:induction false} ElemsNulFree(j: Json, i: nat, f: Flags, depth: nat, fmt: FormatDouble, good: Double -> bool)
    requires Printable(j, good) && NulFreeReals(fmt, good) && j.JArray? && i <= |j.elems|
    ensures NulFree(PrintElems(j, i, f, depth, fmt))
    decreases j, 1, |j.elems| - i
  {
    if i < |j.elems| {
      assert j.elems[i] in j.elems;
      PrintNulFree(j.elems[i], f, depth, fmt, good);
      ElemsNulFree(j, i + 1, f, depth, fmt, good);
      NulFreeConcat(Separator(i, f, depth), Print(j.elems[i], f, depth, fmt), PrintElems(j, i + 1, f, depth, fmt));
    }
  }

  lemma NulFreeConcat(a: Bytes, b: Bytes, c: Bytes)
    requires NulFree(a) && NulFree(b) && NulFree(c)
    ensures NulFree(a + b + c)
  {
  }

  lemma {:induction false} MembersNulFree(j: Json, order: seq<Member>, i: nat, f: Flags, depth: nat, fmt: FormatDouble, good: Double -> bool)
    requires Printable(j, good) && NulFreeReals(fmt, good) && j.JObject? && i <= |order| && forall m :: m in order ==> m in j.members
    ensures NulFree(PrintMembers(j, order, i, f, depth, fmt))
    decreases j, 1, |order| - i
  {
    if i < |order| {
      MemberNulFree(j, order[i], f, depth, fmt, good);
      MembersNulFree(j, order, i + 1, f, depth, fmt, good);
      NulFreeConcat(Separator(i, f, depth), PrintMember(j, order[i], f, depth, fmt),
                    PrintMembers(j, order, i + 1, f, depth, fmt));
    }
  }

  lemma {:induction false} MemberNulFree(j: Json, m: Member, f: Flags, depth: nat, fmt: FormatDouble, good: Double -> bool)
    requires Printable(j, good) && NulFreeReals(fmt, good) && j.JObject? && m in j.members
    ensures NulFree(PrintMember(j, m, f, depth, fmt))
    decreases j, 0
  {
    EscapeIsText(m.name);
    PrintNulFree(m.value, f, depth, fmt, good);
    NulFreeConcat(Quoted(m.name) + [':'], if f.pretty then [' '] else [], Print(m.value, f, depth, fmt));
  }

  // ----- the arranged tree is as deep

  lemma {:induction false} DepthElemsBound(es: seq<Json>, d: nat)
    ensures DepthElems(es) <= d <==> forall i :: 0 <= i < |es| ==> Depth(es[i]) <= d
  {
    if es != [] {
      DepthElemsBound(es[1..], d);
      assert forall i :: 0 < i < |es| ==> es[i] == es[1..][i - 1];
    }
  }

  lemma {:induction false} DepthMembersBound(ms: seq<Member>, d: nat)
    ensures DepthMembers(ms) <= d <==> forall i :: 0 <= i < |ms| ==> Depth(ms[i].value) <= d
  {
    if ms != [] {
      DepthMembersBound(ms[1..], d);
      assert forall i :: 0 < i < |ms| ==> ms[i] == ms[1..][i - 1];
    }
  }

  lemma {:induction false} DepthArranged(j: Json, f: Flags)
    requires Proper(j)
    ensures Depth(Arranged(j, f)) == Depth(j)
    decreases j
  {
    match j {
      case JArray(es) =>
        var a := ArrangedElems(j, 0, f);
        forall k | 0 <= k < |es|
          ensures Depth(a[k]) == Depth(es[k])
        {
          ArrangedElemAt(j, 0, f, k);
          DepthArranged(es[k], f);
        }
        DepthElemsBound(a, DepthElems(es));
        DepthElemsBound(es, DepthElems(es));
        DepthElemsBound(es, DepthElems(a));
        DepthElemsBound(a, DepthElems(a));
      case JObject(ms) =>
        var order := Order(ms, f);
        var a := ArrangedMembers(j, order, 0, f);
        OrderKeeps(ms, f);
        forall k | 0 <= k < |order|
          ensures Depth(a[k].value) == Depth(order[k].value)
        {
          ArrangedAt(j, order, 0, f, k);
          assert order[k] in ms;
          DepthArranged(order[k].value, f);
        }
        SameDepthMembers(a, order, ms);
      case _ =>
    }
  }

  lemma SameDepthMembers(a: seq<Member>, order: seq<Member>, ms: seq<Member>)
    requires |a| == |order| && forall k :: 0 <= k < |order| ==> Depth(a[k].value) == Depth(order[k].value)
    requires forall m :: m in order <==> m in ms
    ensures DepthMembers(a) == DepthMembers(ms)
  {
    var d, e := DepthMembers(ms), DepthMembers(a);
    DepthMembersBound(a, d);
    DepthMembersBound(ms, d);
    DepthMembersBound(ms, e);
    DepthMembersBound(a, e);
    forall k | 0 <= k < |order|
      ensures Depth(order[k].value) <= d
    {
      assert order[k] in ms;
    }
    forall i | 0 <= i < |ms|
      ensures Depth(ms[i].value) <= e
    {
      assert ms[i] in order;
    }
  }

  // ----- the round trip

  lemma FeedPrinted(j: Json, f: Flags, fmt: FormatDouble, trailer: bool, strtod: Strtod)
    requires Printable(j, ReadsBack(fmt, strtod)) && IsContainer(j)
    ensures Feed(Created(trailer), Print(j, f, 0, fmt), strtod).0.core == At(Run(Init(trailer), TokensOf(Arranged(j, f))))
  {
    var text, tokens := Print(j, f, 0, fmt), TokensOf(Arranged(j, f));
    FeedForgetsPositions(Created(trailer), text, strtod);
    ReadsPrinted(j, f, 0, fmt, strtod);
    assert ReadsAt(Init(trailer), text, tokens, [], strtod);
    assert text + [] == text;
  }

  /** Feeding the text of a document to a parser, with or without the check for trailing
      garbage, gives the document's value, for every combination of flags. */
  lemma RoundTrip(j: Json, f: Flags, fmt: FormatDouble, trailer: bool, strtod: Strtod)
    requires IsContainer(j) && Printable(j, ReadsBack(fmt, strtod)) && Proper(j) && Depth(j) <= MAX_HEIGHT
    ensures Finish(Feed(Created(trailer), Print(j, f, 0, fmt), strtod).0, strtod) == Parsed(Eval(j))
  {
    hide FeedCore;
    hide Feed;
    hide Print;
    var a := Arranged(j, f);
    FeedPrinted(j, f, fmt, trailer, strtod);
    DepthArranged(j, f);
    EvalArranged(j, f);
    RunDocument(Setup(trailer, MAX_HEIGHT), a, []);
    assert TokensOf(a) + [] == TokensOf(a);
    assert Run(Init(trailer), TokensOf(a)) == Closed(Setup(trailer, MAX_HEIGHT), [], Eval(j));
  }

  lemma ReadsBackNulFree(fmt: FormatDouble, strtod: Strtod)
    ensures NulFreeReals(fmt, ReadsBack(fmt, strtod))
  {
    forall d | ReadsBack(fmt, strtod)(d)
      ensures NulFree(fmt(d))
    {
      RealText(d, fmt, strtod);
    }
  }

  /** json_from_string gives back the value of a printed document if and only if it is nested at
      most 1000 containers deep; otherwise it reports an error. */
  lemma RoundTripIff(j: Json, f: Flags, fmt: FormatDouble, strtod: Strtod)
    requires IsContainer(j) && Printable(j, ReadsBack(fmt, strtod)) && Proper(j)
    ensures FromString(Print(j, f, 0, fmt), strtod) == Parsed(Eval(j)) <==> Depth(j) <= MAX_HEIGHT
    ensures FromString(Print(j, f, 0, fmt), strtod).Failed? <==> Depth(j) > MAX_HEIGHT
  {
    hide FeedCore;
    hide Feed;
    hide Print;
    ReadsBackNulFree(fmt, strtod);
    PrintNulFree(j, f, 0, fmt, ReadsBack(fmt, strtod));
    assert CString(Print(j, f, 0, fmt)) == Print(j, f, 0, fmt);
    if Depth(j) <= MAX_HEIGHT {
      RoundTrip(j, f, fmt, true, strtod);
    } else {
      var tokens := TokensOf(Arranged(j, f));
      FeedPrinted(j, f, fmt, true, strtod);
      DepthArranged(j, f);
      forall k | IsDocument(k, tokens)
        ensures false
      {
        SameTokensSameDepth(k, Arranged(j, f));
      }
      AcceptsExactlyDocuments(tokens);
      assert !Accepting(Run(Init(true), tokens));
    }
  }

  /** Whatever hash tables the parser builds, its tree is json_equal to the one printed, if that has no
      reals. */
  lemma RoundTripEqual(j: Json, f: Flags, fmt: FormatDouble, strtod: Strtod, t: Json,
                       same: SameDouble)
    requires IsContainer(j) && Printable(j, NoReal()) && Proper(j) && Depth(j) <= MAX_HEIGHT
    requires Proper(t)
    ensures FromString(Print(j, f, 0, fmt), strtod) == Parsed(Eval(t)) <==> Equal(t, j, same)
  {
    hide FromString;
    hide Print;
    hide Equal;
    PrintableNoReals(j, ReadsBack(fmt, strtod));
    RoundTripIff(j, f, fmt, strtod);
    EqualIffSameValue(t, j, same);
  }

  // ----- the text determines the value

  lemma BoxReads(j: Json, f: Flags, depth: nat, fmt: FormatDouble, strtod: Strtod)
    requires Printable(j, ReadsBack(fmt, strtod))
    ensures Reads(['['] + (Print(j, f, depth, fmt) + [']']), TokensOf(JArray([Arranged(j, f)])), strtod)
  {
    hide Print;
    hide Reads;
    hide ReadsBefore;
    hide Arranged;
    hide Printable;
    var a, text := Arranged(j, f), Print(j, f, depth, fmt);
    ReadsPrinted(j, f, depth, fmt, strtod);
    ReadsPunctuation('[', strtod);
    ReadsPunctuation(']', strtod);
    assert Delimits([']']);
    ReadsBeforeConcat(text, TokensOf(a), [']'], [EndArray], strtod);
    ReadsConcat(['['], [BeginArray], text + [']'], TokensOf(a) + [EndArray], strtod);
    BoxTokens(a);
  }

  /** A printed tree between brackets, read by a parser whose stack may be high enough. */
  lemma BoxedValue(j: Json, f: Flags, depth: nat, fmt: FormatDouble, strtod: Strtod, height: nat)
    requires Printable(j, ReadsBack(fmt, strtod)) && Proper(j) && 1 + Depth(j) <= height
    ensures var setup := Setup(true, height);
            FeedCore(At(InitWith(setup)), ['['] + (Print(j, f, depth, fmt) + [']']), strtod)
            == At(Closed(setup, [], VArray([Eval(j)])))
  {
    hide FeedCore;
    hide Print;
    hide Reads;
    hide Run;
    hide Arranged;
    hide Printable;
    hide TokensOf;
    var setup, a, text := Setup(true, height), Arranged(j, f), Print(j, f, depth, fmt);
    BoxReads(j, f, depth, fmt, strtod);
    DepthArranged(j, f);
    EvalArranged(j, f);
    BoxTokens(a);
    RunDocument(setup, JArray([a]), []);
    ReadsHere(InitWith(setup), ['['] + (text + [']']), TokensOf(JArray([a])), strtod);
    assert TokensOf(JArray([a])) + [] == TokensOf(JArray([a]));
    RunNothing(Closed(setup, [], Eval(JArray([a]))));
  }

  lemma BoxTokens(a: Json)
    ensures TokensOf(JArray([a])) == [BeginArray] + (TokensOf(a) + [EndArray])
    ensures Eval(JArray([a])) == VArray([Eval(a)]) && Depth(JArray([a])) == 1 + Depth(a)
  {
    assert [a][1..] == [] && ElemTail([]) == [];
    assert [a][..0] == [] && EvalElems([a]) == [Eval(a)];
    assert DepthElems([a]) == Depth(a);
  }

  lemma RunNothing(p: Parser)
    requires Valid(p)
    ensures Run(p, []) == p
  {
  }

  /** Printing is injective up to the order of members, at any depth: equal text means equal
      values, whatever the flags. */
  lemma SameTextSameValue(a: Json, b: Json, f: Flags, depth: nat, fmt: FormatDouble, strtod: Strtod)
    requires Printable(a, ReadsBack(fmt, strtod)) && Proper(a) && Printable(b, ReadsBack(fmt, strtod)) && Proper(b)
    requires Print(a, f, depth, fmt) == Print(b, f, depth, fmt)
    ensures Eval(a) == Eval(b)
  {
    hide FeedCore;
    hide Print;
    var height := 1 + Max(Depth(a), Depth(b));
    BoxedValue(a, f, depth, fmt, strtod, height);
    BoxedValue(b, f, depth, fmt, strtod, height);
    assert [Eval(a)][0] == [Eval(b)][0];
  }

  /** Equal text means equal trees. */
  lemma SameTextEqual(a: Json, b: Json, f: Flags, depth: nat, fmt: FormatDouble, same: SameDouble)
    requires Printable(a, NoReal()) && Proper(a) && Printable(b, NoReal()) && Proper(b)
    requires Print(a, f, depth, fmt) == Print(b, f, depth, fmt)
    ensures Equal(a, b, same)
  {
    hide Print;
    hide Equal;
    var strtod := Strtod(s => None, d => true, Double(0));
    PrintableNoReals(a, ReadsBack(fmt, strtod));
    PrintableNoReals(b, ReadsBack(fmt, strtod));
    SameTextSameValue(a, b, f, depth, fmt, strtod);
    EqualIffSameValue(a, b, same);
  }
}
