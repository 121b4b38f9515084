/** The position in an error message: where the first byte stands that makes the text wrong. */
module JsonPositions {
  import opened Bytes
  import opened JsonValue
  import opened JsonParser
  import opened JsonLexer

  /** How many new lines there are. */
  function LinesIn(s: Bytes): nat {
    if s == [] then 0 else LinesIn(s[..|s| - 1]) + if s[|s| - 1] == '\n' then 1 else 0
  }

  /** How many bytes there are behind the last new line. */
  function BehindLine(s: Bytes): (k: nat)
    ensures k <= |s|
  {
    if s == [] || s[|s| - 1] == '\n' then 0 else 1 + BehindLine(s[..|s| - 1])
  }

  lemma {:induction false} BehindLineIs(s: Bytes)
    ensures var k := BehindLine(s);
            '\n' !in s[|s| - k..] && (k < |s| ==> s[|s| - k - 1] == '\n')
  {
    if s != [] && s[|s| - 1] != '\n' {
      var t := s[..|s| - 1];
      BehindLineIs(t);
      assert s[|t| - BehindLine(t)..] == t[|t| - BehindLine(t)..] + [s[|s| - 1]];
    }
  }

  /** The position behind the bytes `s`. */
  function PositionOf(s: Bytes): Position {
    Position(LinesIn(s), BehindLine(s), |s|)
  }

  lemma AdvanceIs(s: Bytes, b: Byte)
    ensures PositionOf(s + [b]) == Advance(PositionOf(s), b)
  {
    assert (s + [b])[..|s|] == s;
  }

  /** After feeding, line, column and byte are those of what has been consumed. */
  lemma {:induction false} FeedPosition(s: State, before: Bytes, input: Bytes, strtod: Strtod)
    requires CoreValid(s.core) && s.position == PositionOf(before)
    ensures var (t, n) := Feed(s, input, strtod); t.position == PositionOf(before + input[..n])
    decreases |input|, if s.core.lex == LexStart then 0 else 1
  {
    hide LexInput;
    hide Feed;
    hide Step;
    if input == [] || s.core.parser.done {
      FeedNothing(s, input, strtod);
      assert before + input[..0] == before;
    } else {
      var b, rest := input[0], input[1..];
      var (t, consumed) := Step(s, b, strtod);
      assert input == [b] + rest;
      FeedStep(s, b, rest, strtod);
      StepPosition(s, before, b, strtod);
      if consumed {
        FeedPosition(t, before + [b], rest, strtod);
        var n := Feed(t, rest, strtod).1;
        assert before + [b] + rest[..n] == before + input[..n + 1];
      } else if t.core.parser.done {
        assert before + input[..0] == before;
      } else {
        FeedPosition(t, before, input, strtod);
      }
    }
  }

  /** Feeding ends with an error that was not there: byte number `k` made it, and its position is the
      one behind the bytes in front of it. */
  ghost predicate FailsAt(s: State, before: Bytes, input: Bytes, strtod: Strtod, k: nat)
    requires CoreValid(s.core)
  {
    && k < |input|
    && Feed(s, input[..k], strtod).0.core.parser.error.None?
    && Feed(s, input[..k + 1], strtod).0.core.parser.error.Some?
    && Feed(s, input, strtod).0.errorAt == PositionOf(before + input[..k])
  }

  lemma {:induction false} ErrorPosition(s: State, before: Bytes, input: Bytes, strtod: Strtod) returns (k: nat)
    requires CoreValid(s.core) && s.position == PositionOf(before)
    requires s.core.parser.error.None? && Feed(s, input, strtod).0.core.parser.error.Some?
    ensures FailsAt(s, before, input, strtod, k)
    decreases |input|, if s.core.lex == LexStart then 0 else 1
  {
    hide LexInput;
    hide Feed;
    hide Step;
    hide FailsAt;
    if s.core.parser.done || input == [] { FeedNothing(s, input, strtod); }
    var b, rest := input[0], input[1..];
    var (t, consumed) := Step(s, b, strtod);
    assert input == [b] + rest;
    FeedStep(s, b, rest, strtod);
    StepPosition(s, before, b, strtod);
    if t.core.parser.error.Some? {
      k := 0;
      FailsFirst(s, before, input, strtod);
    } else if consumed {
      k := ErrorPosition(t, before + [b], rest, strtod);
      FailsLater(s, before, input, strtod, k);
      k := k + 1;
    } else {
      if t.core.parser.done { FeedNothing(t, input, strtod); }
      k := ErrorPosition(t, before, input, strtod);
      FailsAgain(s, before, input, strtod, k);
    }
  }

  lemma FailsLater(s: State, before: Bytes, input: Bytes, strtod: Strtod, k: nat)
    requires CoreValid(s.core) && !s.core.parser.done && input != [] && Step(s, input[0], strtod).1
    requires FailsAt(Step(s, input[0], strtod).0, before + [input[0]], input[1..], strtod, k)
    ensures FailsAt(s, before, input, strtod, k + 1)
  {
    hide Feed;
    hide Step;
    hide PositionOf;
    var b, rest := input[0], input[1..];
    assert input == [b] + rest && input[..k + 1] == [b] + rest[..k] && input[..k + 2] == [b] + rest[..k + 1];
    FeedStep(s, b, rest, strtod);
    FeedStep(s, b, rest[..k], strtod);
    FeedStep(s, b, rest[..k + 1], strtod);
    assert before + [b] + rest[..k] == before + input[..k + 1];
  }

  lemma FailsAgain(s: State, before: Bytes, input: Bytes, strtod: Strtod, k: nat)
    requires CoreValid(s.core) && !s.core.parser.done && s.core.parser.error.None? && input != []
    requires !Step(s, input[0], strtod).1 && !Step(s, input[0], strtod).0.core.parser.done
    requires FailsAt(Step(s, input[0], strtod).0, before, input, strtod, k)
    ensures FailsAt(s, before, input, strtod, k)
  {
    hide Feed;
    hide Step;
    hide PositionOf;
    var b, rest := input[0], input[1..];
    assert input == [b] + rest && input[..k + 1] == [b] + rest[..k];
    FeedStep(s, b, rest, strtod);
    FeedStep(s, b, rest[..k], strtod);
    if k == 0 {
      FeedNothing(s, input[..0], strtod);
    } else {
      assert input[..k] == [b] + rest[..k - 1];
      FeedStep(s, b, rest[..k - 1], strtod);
    }
  }

  lemma StepPosition(s: State, before: Bytes, b: Byte, strtod: Strtod)
    requires CoreValid(s.core) && s.position == PositionOf(before)
    ensures var (t, consumed) := Step(s, b, strtod); t.position == PositionOf(if consumed then before + [b] else before)
  {
    hide LexInput;
    AdvanceIs(before, b);
  }

  /** The first byte makes the error, and feeding stops. */
  lemma FailsFirst(s: State, before: Bytes, input: Bytes, strtod: Strtod)
    requires CoreValid(s.core) && s.position == PositionOf(before) && input != []
    requires s.core.parser.error.None? && !s.core.parser.done && Step(s, input[0], strtod).0.core.parser.error.Some?
    ensures FailsAt(s, before, input, strtod, 0)
  {
    hide LexInput;
    var b, rest := input[0], input[1..];
    var (t, consumed) := Step(s, b, strtod);
    assert input == [b] + rest && input[..1] == [b] + [] && before + input[..0] == before;
    FeedStep(s, b, rest, strtod);
    FeedStep(s, b, [], strtod);
    assert t.core.parser.done;
    FeedNothing(t, rest, strtod);
    FeedNothing(t, [], strtod);
    FeedNothing(s, input[..0], strtod);
  }

  /** The position that json_from_string reports is that of the first byte that makes the text wrong,
      or the end of the text if no byte does. */
  lemma ReportedPosition(text: Bytes, strtod: Strtod) returns (k: nat)
    requires FromString(text, strtod).Failed?
    ensures k <= |CString(text)| && FromString(text, strtod).at == PositionOf(CString(text)[..k])
    ensures Feed(Created(true), CString(text)[..k], strtod).0.core.parser.error.None?
    ensures k < |CString(text)| ==> Feed(Created(true), CString(text)[..k + 1], strtod).0.core.parser.error.Some?
  {
    hide LexInput;
    hide Feed;
    var s, input := Created(true), CString(text);
    var (t, n) := Feed(s, input, strtod);
    assert s.position == PositionOf([]);
    if t.core.parser.error.Some? {
      k := ErrorPosition(s, [], input, strtod);
      assert [] + input[..k] == input[..k];
    } else {
      k := |input|;
      FeedPosition(s, [], input, strtod);
      assert input[..k] == input;
      ReadsOn(s, input, strtod);
      assert [] + input[..n] == input;
    }
  }

  lemma StepSetup(s: State, b: Byte, strtod: Strtod)
    requires CoreValid(s.core)
    ensures Step(s, b, strtod).0.core.parser.setup == s.core.parser.setup
  {
    hide Deliver;
    hide KeywordLexeme;
    hide NumberLexeme;
    hide StringLexeme;
    hide CString;
    hide IsNumberByte;
    hide IsSpace;
    hide Punctuation;
    var c := s.core;
    if Punctuation(b).Some? { DeliverSetup(c, Lexeme(Punctuation(b).value)); }
    DeliverSetup(c, KeywordLexeme(CString(c.buffer)));
    DeliverSetup(c, NumberLexeme(CString(c.buffer), strtod));
    DeliverSetup(c, StringLexeme(CString(c.buffer)));
  }

  lemma DeliverSetup(c: Core, l: Lexeme)
    requires CoreValid(c)
    ensures Deliver(c, l).parser.setup == c.parser.setup
  {
    if l.Lexeme? { SetupStays(c.parser, l.token); }
  }

  /** A parser that checks for trailing garbage reads on until there is an error. */
  lemma {:induction false} ReadsOn(s: State, input: Bytes, strtod: Strtod)
    requires CoreValid(s.core) && s.core.parser.setup.trailer
    ensures var (t, n) := Feed(s, input, strtod); t.core.parser.error.None? ==> n == |input|
    decreases |input|, if s.core.lex == LexStart then 0 else 1
  {
    hide LexInput;
    hide Feed;
    hide Step;
    if input == [] || s.core.parser.done {
      FeedNothing(s, input, strtod);
    } else {
      var (t, consumed) := Step(s, input[0], strtod);
      assert input == [input[0]] + input[1..];
      FeedStep(s, input[0], input[1..], strtod);
      StepSetup(s, input[0], strtod);
      if consumed {
        ReadsOn(t, input[1..], strtod);
      } else if !t.core.parser.done {
        ReadsOn(t, input, strtod);
      }
    }
  }
}
