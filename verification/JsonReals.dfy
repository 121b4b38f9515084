/** Reals through the round trip: they come back if and only if their text is read as they are. */
module JsonReals {
  import opened Bytes
  import opened JsonValue
  import opened JsonParser
  import opened JsonLexer
  import opened JsonPrinter
  import opened JsonGrammar
  import opened JsonRoundTrip
  import opened JsonText
  import JsonNumber

  /** A text that the lexer takes for a number as a whole. */
  ghost predicate LooksNumeric(s: Bytes) {
    s != [] && (s[0] == '-' || JsonNumber.IsDigit(s[0])) && NulFree(s) && forall i :: 0 <= i < |s| ==> IsNumberByte(s[i])
  }

  /** An array of one real comes back from its text if and only if the text of the real is read as that
      real; so the condition on reals in the round trip cannot be left out.  (It fails for 1.0, which
      "%.*g" prints as an integer.) */
  lemma RealComesBack(d: Double, f: Flags, fmt: FormatDouble, strtod: Strtod)
    requires LooksNumeric(fmt(d))
    ensures FromString(Print(JArray([JReal(d)]), f, 0, fmt), strtod) == Parsed(VArray([VReal(d)]))
       <==> ReadsBack(fmt, strtod)(d)
  {
    hide FromString;
    hide NumberLexeme;
    hide Print;
    hide Indent;
    var s, space := fmt(d), Indent(f, 1);
    var text := ['['] + (space + (s + [']']));
    TextOfOne(d, f, fmt);
    assert NulFree(text);
    match NumberLexeme(s, strtod)
    case Lexeme(t) => NumberComesBack(space, s, t, d, strtod);
    case Mistake(kind) =>
      NumberFails(space, s, strtod);
      ParsedIfEnds(text, strtod);
  }

  lemma NumberComesBack(space: Bytes, s: Bytes, t: Token, d: Double, strtod: Strtod)
    requires Blank(space) && NumberLexeme(s, strtod) == Lexeme(t) && NulFree(['['] + (space + (s + [']'])))
    ensures FromString(['['] + (space + (s + [']'])), strtod) == Parsed(VArray([VReal(d)])) <==> t == RealToken(d)
  {
    hide FromString;
    hide NumberLexeme;
    hide IsText;
    NumberIff(s, t, strtod);
    NumberToken(s, t, strtod);
    var j := if t.IntegerToken? then JInteger(t.n) else JReal(t.d);
    TextOfNumber(space, s, t, j, strtod);
    TextIsParsed(JArray([j]), ['['] + (space + (s + [']'])), strtod);
    assert [Eval(j)][0] == Eval(j) && [VReal(d)][0] == VReal(d);
  }

  lemma NumberToken(s: Bytes, t: Token, strtod: Strtod)
    requires IsNumber(s, t, strtod)
    ensures t.IntegerToken? || t.RealToken?
  {
  }

  lemma TextOfOne(d: Double, f: Flags, fmt: FormatDouble)
    ensures Print(JArray([JReal(d)]), f, 0, fmt) == ['['] + (Indent(f, 1) + (fmt(d) + [']']))
    ensures NulFree(Indent(f, 1)) && forall i :: 0 <= i < |Indent(f, 1)| ==> Indent(f, 1)[i] in {' ', '\n'}
  {
    var j := JArray([JReal(d)]);
    assert PrintElems(j, 1, f, 1, fmt) == [];
    assert PrintElems(j, 0, f, 1, fmt) == fmt(d);
    assert ['['] + (Indent(f, 1) + fmt(d)) + [']'] == ['['] + (Indent(f, 1) + (fmt(d) + [']']));
  }

  lemma TextOfNumber(space: Bytes, s: Bytes, t: Token, j: Json, strtod: Strtod)
    requires Blank(space) && IsNumber(s, t, strtod) && TokensOf(j) == [t] && Depth(j) == 0 && !IsContainer(j)
    ensures IsText(JArray([j]), ['['] + (space + (s + [']'])), strtod)
    ensures Eval(JArray([j])) == VArray([Eval(j)])
  {
    hide Spells;
    hide Written;
    assert Spells([']'], EndArray, strtod) && Spells(['['], BeginArray, strtod) && Spells(s, t, strtod) by {
      SpellsThree(s, t, strtod);
    }
    assert Written([], [], strtod) by { WrittenNothing(strtod); }
    PrependToken([']'], EndArray, [], [], strtod);
    assert [']'] + [] == [']'];
    PrependToken(s, t, [']'], [EndArray] + [], strtod);
    PrependBlank(space, s + [']'], [t] + ([EndArray] + []), strtod);
    PrependToken(['['], BeginArray, space + (s + [']']), [t] + ([EndArray] + []), strtod);
    assert [j][1..] == [] && ElemTail([]) == [];
    assert TokensOf(JArray([j])) == [BeginArray] + ([t] + ([EndArray] + []));
    assert DepthElems([j]) == 0;
    assert [j][..0] == [] && EvalElems([j]) == [Eval(j)];
  }

  lemma SpellsThree(s: Bytes, t: Token, strtod: Strtod)
    requires IsNumber(s, t, strtod)
    ensures Spells([']'], EndArray, strtod) && Spells(['['], BeginArray, strtod) && Spells(s, t, strtod)
  {
  }

  lemma WrittenNothing(strtod: Strtod)
    ensures Written([], [], strtod)
  {
  }

  lemma {:induction false} PrependBlank(space: Bytes, text: Bytes, tokens: seq<Token>, strtod: Strtod)
    requires Blank(space) && Written(text, tokens, strtod)
    ensures Written(space + text, tokens, strtod)
  {
    hide Written;
    if space == [] {
      assert space + text == text;
    } else {
      PrependBlank(space[1..], text, tokens, strtod);
      PrependSpace(space[0], space[1..] + text, tokens, strtod);
      assert space + text == [space[0]] + (space[1..] + text);
    }
  }

  lemma {:induction false} VerdictBlank(p: Parser, space: Bytes, rest: Bytes, strtod: Strtod)
    requires Valid(p) && Blank(space)
    ensures Verdict(At(p), space + rest, strtod) == Verdict(At(p), rest, strtod)
  {
    hide Verdict;
    if space == [] {
      assert space + rest == rest;
    } else {
      VerdictBlank(p, space[1..], rest, strtod);
      VerdictSpace(p, space[0], space[1..] + rest, strtod);
      assert space + rest == [space[0]] + (space[1..] + rest);
    }
  }

  lemma VerdictNumber(q: Parser, s: Bytes, strtod: Strtod)
    requires Valid(q) && !q.done && LooksNumeric(s)
    ensures Verdict(At(q), s + [']'], strtod) == Verdict(Core(LexNumber, s, q), [']'], strtod)
  {
    hide FeedCore;
    FeedText(q, LexNumber, s, [']'], strtod);
  }

  /** A number that is refused makes the text fail. */
  lemma NumberFails(space: Bytes, s: Bytes, strtod: Strtod)
    requires Blank(space) && LooksNumeric(s) && NumberLexeme(s, strtod).Mistake?
    ensures Verdict(At(Init(true)), ['['] + (space + (s + [']'])), strtod) == Some(NumberLexeme(s, strtod).kind)
  {
    hide FeedCore;
    hide NumberLexeme;
    hide Verdict;
    var p := Init(true);
    var q := Input(p, BeginArray);
    LexedPunctuation(p, '[', space + (s + [']']), strtod);
    VerdictBlank(q, space, s + [']'], strtod);
    VerdictNumber(q, s, strtod);
    LexedRun(q, LexNumber, s, [']'], strtod);
  }
}
