/** Why json_from_string refuses a text: what it has read, and what it found there. */
module JsonFailures {
  import opened Bytes
  import opened JsonValue
  import opened JsonParser
  import opened JsonLexer
  import opened JsonGrammar
  import opened JsonRoundTrip
  import opened JsonMessages
  import opened JsonText

  /** `before` is written with the tokens `u`, which the parser takes; and then the text ends too
      early, or no token follows, or a token that cannot stand there. */
  ghost predicate FailsBehind(p: Parser, u: seq<Token>, before: Bytes, rest: Bytes, text: Bytes, kind: ErrorKind, strtod: Strtod)
    requires Valid(p)
  {
    && text == before + rest && Written(before, u, strtod)
    && var q := Run(p, u);
       && q.error.None?
       && ( || (rest == [] && q.state != End && kind == if q.state == Start then EmptyInput else UnexpectedEnd)
            || LexWrong(rest, kind, strtod)
            || exists s, t :: Misplaced(q, s, t, rest, kind, strtod))
  }

  ghost predicate Misplaced(q: Parser, s: Bytes, t: Token, rest: Bytes, kind: ErrorKind, strtod: Strtod)
    requires Valid(q)
  {
    s <= rest && Spells(s, t, strtod) && Input(q, t).error == Some(kind)
  }

  lemma FailsMore(p: Parser, b: Byte, u: seq<Token>, before: Bytes, rest: Bytes, text: Bytes, kind: ErrorKind, strtod: Strtod)
    requires Valid(p) && b in {' ', '\t', '\n', '\r'} && FailsBehind(p, u, before, rest, text, kind, strtod)
    ensures FailsBehind(p, u, [b] + before, rest, [b] + text, kind, strtod)
  {
    hide Written;
    PrependSpace(b, before, u, strtod);
    assert [b] + (before + rest) == ([b] + before) + rest;
  }

  lemma FailsBehindToken(p: Parser, s: Bytes, t: Token, u: seq<Token>, before: Bytes, rest: Bytes, text: Bytes, kind: ErrorKind,
                         strtod: Strtod)
    requires Valid(p) && !p.done && Valid(Input(p, t)) && Spells(s, t, strtod)
    requires FailsBehind(Input(p, t), u, before, rest, text, kind, strtod)
    ensures FailsBehind(p, [t] + u, s + before, rest, s + text, kind, strtod)
  {
    hide Written;
    hide Input;
    PrependToken(s, t, before, u, strtod);
    RunStep(p, t, u);
    assert s + (before + rest) == (s + before) + rest;
  }

  lemma {:induction false} FailsIn(p: Parser, text: Bytes, strtod: Strtod) returns (u: seq<Token>, before: Bytes, rest: Bytes)
    requires Valid(p) && !p.done && p.setup.trailer && NulFree(text) && Verdict(At(p), text, strtod).Some?
    ensures FailsBehind(p, u, before, rest, text, Verdict(At(p), text, strtod).value, strtod)
    decreases |text|
  {
    hide Verdict;
    hide Spells;
    hide Input;
    hide LexWrong;
    u, before, rest := [], [], text;
    assert [] + text == text;
    if text == [] {
      AtEnd(p, strtod);
    } else if text[0] in {' ', '\t', '\n', '\r'} {
      assert text == [text[0]] + text[1..];
      VerdictSpace(p, text[0], text[1..], strtod);
      u, before, rest := FailsIn(p, text[1..], strtod);
      FailsMore(p, text[0], u, before, rest, text[1..], Verdict(At(p), text, strtod).value, strtod);
      before := [text[0]] + before;
    } else {
      var s, t, more := FirstLexeme(p, text, strtod);
      if t.Some? {
        Taken(p, t.value, more, strtod);
        if Input(p, t.value).error.Some? {
          assert Misplaced(p, s, t.value, text, Verdict(At(p), text, strtod).value, strtod);
        } else {
          assert forall i :: 0 <= i < |more| ==> more[i] == text[|s| + i];
          u, before, rest := FailsIn(Input(p, t.value), more, strtod);
          FailsBehindToken(p, s, t.value, u, before, rest, more, Verdict(At(p), text, strtod).value, strtod);
          u, before := [t.value] + u, s + before;
        }
      }
    }
  }

  /** The text is refused: `before` is white space and the tokens `u`, with which some text could go
      on; then it ends though a document is not complete, or something stands there that is no token,
      or a token that cannot follow. */
  ghost predicate Refused(u: seq<Token>, before: Bytes, rest: Bytes, text: Bytes, kind: ErrorKind, strtod: Strtod) {
    && text == before + rest && Written(before, u, strtod) && Run(Init(true), u).error.None?
    && ( || (rest == [] && u == [] && kind == EmptyInput)
         || (rest == [] && Open(u) != [] && kind == UnexpectedEnd)
         || LexWrong(rest, kind, strtod)
         || exists s, t :: Unfit(u, s, t, rest, kind, strtod))
  }

  /** A token that cannot follow the tokens `u`, and the message for it. */
  ghost predicate Unfit(u: seq<Token>, s: Bytes, t: Token, rest: Bytes, kind: ErrorKind, strtod: Strtod) {
    && s <= rest && Spells(s, t, strtod)
    && if t in {BeginArray, BeginObject} && Wanted(u) in {AtBeginning, ExpectingValue} then
         kind == TooDeep && |Open(u)| == MAX_HEIGHT
       else
         kind == Wanted(u)
  }

  /** Every error of json_from_string is one of these, and has the message that says so. */
  lemma WhyRefused(text: Bytes, strtod: Strtod) returns (u: seq<Token>, before: Bytes, rest: Bytes)
    requires FromString(text, strtod).Failed?
    ensures Refused(u, before, rest, CString(text), FromString(text, strtod).kind, strtod)
  {
    hide FromString;
    hide Verdict;
    hide Written;
    hide Spells;
    hide LexWrong;
    hide Input;
    ParsedIfEnds(text, strtod);
    var kind := FromString(text, strtod).kind;
    u, before, rest := FailsIn(Init(true), CString(text), strtod);
    var q := Run(Init(true), u);
    StartFollows();
    RunFollows(Init(true), [], u);
    assert [] + u == u;
    NotDone(q, u);
    StateOf(q, u);
    if s, t :| Misplaced(q, s, t, rest, kind, strtod) {
      FailsWith(q, u, t);
      assert Unfit(u, s, t, rest, kind, strtod);
    }
  }

  lemma StateOf(q: Parser, u: seq<Token>)
    requires Follows(q, u)
    ensures q.state == Start <==> u == []
    ensures q.state == End <==> u != [] && Open(u) == []
  {
  }
}
