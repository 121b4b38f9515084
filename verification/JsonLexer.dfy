/** The byte-driven half of the JSON reader, on top of the push-down automaton. */
module JsonLexer {
  import opened Bytes
  import opened JsonValue
  import opened JsonParser
  import JsonCodec
  import JsonNumber

  /** str_to_double, and what is known of doubles: which of them compare equal to 0, and the one of
      these without a sign. */
  datatype Strtod = Strtod(convert: Bytes -> Option<Double>, isZero: Double -> bool, zero: Double)

  datatype LexState = LexStart | LexNumber | LexKeyword | LexString | LexEscape

  /** lex_state, buffer and the parsing half of struct json_parser. */
  datatype Core = Core(lex: LexState, buffer: Bytes, parser: Parser)

  function Fresh(trailer: bool): Core {
    Core(LexStart, [], Init(trailer))
  }

  ghost predicate CoreValid(c: Core) {
    Valid(c.parser) && (c.lex == LexStart ==> c.buffer == [])
  }

  /** A buffer read as a C string ends at its first NUL. */
  function CString(s: Bytes): (t: Bytes)
    ensures t <= s && NulFree(t)
    ensures t == s || s[|t|] as int == 0
    ensures NulFree(s) ==> t == s
  {
    if s == [] || s[0] as int == 0 then [] else [s[0]] + CString(s[1..])
  }

  predicate IsSpace(b: Byte) { b in " \t\n\r" }

  predicate IsLower(b: Byte) { 'a' <= b <= 'z' }

  predicate IsAlpha(b: Byte) { 'a' <= b <= 'z' || 'A' <= b <= 'Z' }

  /** strchr(".0123456789eE-+", b): also true of the terminator. */
  predicate IsNumberByte(b: Byte) { b in ".0123456789eE-+" || b as int == 0 }

  function Punctuation(b: Byte): Option<Token> {
    match b
    case '[' => Some(BeginArray)
    case ']' => Some(EndArray)
    case '{' => Some(BeginObject)
    case '}' => Some(EndObject)
    case ':' => Some(NameSeparator)
    case ',' => Some(ValueSeparator)
    case _ => None
  }

  datatype Lexeme = Lexeme(token: Token) | Mistake(kind: ErrorKind)

  /** json_lex_keyword. */
  function KeywordLexeme(text: Bytes): Lexeme {
    if text == "false" then Lexeme(FalseToken)
    else if text == "true" then Lexeme(TrueToken)
    else if text == "null" then Lexeme(NullToken)
    else Mistake(InvalidKeyword)
  }

  /** json_lex_number. */
  function NumberLexeme(text: Bytes, strtod: Strtod): Lexeme {
    match JsonNumber.ScanNumber(text)
    case NumBad(e) => Mistake(InNumber(e))
    case NumInteger(n) => Lexeme(IntegerToken(n))
    case NumReal =>
      match strtod.convert(text)
      case Some(d) => Lexeme(RealToken(if strtod.isZero(d) then strtod.zero else d))
      case None => Mistake(OutOfRange)
  }

  /** A real that compares equal to 0 has no sign. */
  lemma NoNegativeZero(text: Bytes, strtod: Strtod)
    requires strtod.isZero(strtod.zero) && NumberLexeme(text, strtod).Lexeme? && NumberLexeme(text, strtod).token.RealToken?
    ensures strtod.isZero(NumberLexeme(text, strtod).token.d) <==> NumberLexeme(text, strtod).token.d == strtod.zero
  {
  }

  /** json_lex_string. */
  function StringLexeme(raw: Bytes): Lexeme {
    if '\\' !in raw then Lexeme(StringToken(raw))
    else
      match JsonCodec.Unescape(raw)
      case Text(cooked) => Lexeme(StringToken(cooked))
      case Bad(e) => Mistake(InString(e))
  }

  /** A complete lexeme: json_parser_input with its reset of the lexer, or json_error. */
  function Deliver(c: Core, l: Lexeme): Core
    requires Valid(c.parser)
  {
    match l
    case Lexeme(t) => Core(LexStart, [], Input(c.parser, t))
    case Mistake(k) => c.(parser := Fail(c.parser, k))
  }

  /** json_lex_input: the new state, and whether the byte was consumed. */
  function LexInput(c: Core, b: Byte, strtod: Strtod): (r: (Core, bool))
    requires CoreValid(c)
    ensures CoreValid(r.0)
    ensures !r.1 ==> c.lex in {LexNumber, LexKeyword} && (r.0.parser.done || r.0.lex == LexStart)
    ensures c.parser.error.Some? ==> r.0.parser.error == c.parser.error
  {
    match c.lex
    case LexStart =>
      if IsSpace(b) then (c, true)
      else if IsLower(b) then (Core(LexKeyword, [b], c.parser), true)
      else if Punctuation(b).Some? then
        InputValid(c.parser, Punctuation(b).value);
        (Deliver(c, Lexeme(Punctuation(b).value)), true)
      else if b == '-' || JsonNumber.IsDigit(b) then (Core(LexNumber, [b], c.parser), true)
      else if b == '"' then (c.(lex := LexString), true)
      else (c.(parser := Fail(c.parser, InvalidCharacter(b))), true)
    case LexKeyword =>
      if IsAlpha(b) then (c.(buffer := c.buffer + [b]), true)
      else
        DeliverValid(c, KeywordLexeme(CString(c.buffer)));
        (Deliver(c, KeywordLexeme(CString(c.buffer))), false)
    case LexNumber =>
      if IsNumberByte(b) then (c.(buffer := c.buffer + [b]), true)
      else
        DeliverValid(c, NumberLexeme(CString(c.buffer), strtod));
        (Deliver(c, NumberLexeme(CString(c.buffer), strtod)), false)
    case LexString =>
      if b == '\\' then (Core(LexEscape, c.buffer + [b], c.parser), true)
      else if b == '"' then
        DeliverValid(c, StringLexeme(CString(c.buffer)));
        (Deliver(c, StringLexeme(CString(c.buffer))), true)
      else if b as int < 0x20 then (c.(parser := Fail(c.parser, Unescaped(b))), true)
      else (c.(buffer := c.buffer + [b]), true)
    case LexEscape => (Core(LexString, c.buffer + [b], c.parser), true)
  }

  lemma DeliverValid(c: Core, l: Lexeme)
    requires CoreValid(c)
    ensures CoreValid(Deliver(c, l))
    ensures Deliver(c, l).parser.done || Deliver(c, l).lex == LexStart
    ensures c.parser.error.Some? ==> Deliver(c, l).parser.error == c.parser.error
  {
    if l.Lexeme? { InputValid(c.parser, l.token); }
  }

  /** json_parser_feed, without the counting of lines: bytes until the parser is done, a byte
      that is not consumed being offered again.  It terminates because an unconsumed byte either
      ends the work or meets the lexer in LexStart, where every byte is consumed. */
  function FeedCore(c: Core, input: Bytes, strtod: Strtod): (r: Core)
    requires CoreValid(c)
    ensures CoreValid(r)
    decreases |input|, if c.lex == LexStart then 0 else 1
  {
    if input == [] || c.parser.done then c
    else
      var (d, consumed) := LexInput(c, input[0], strtod);
      if d.parser.done then d
      else if consumed then FeedCore(d, input[1..], strtod)
      else FeedCore(d, input, strtod)
  }

  /** Chunking does not matter. */
  lemma {:induction false} FeedCoreConcat(c: Core, a: Bytes, b: Bytes, strtod: Strtod)
    requires CoreValid(c)
    ensures FeedCore(FeedCore(c, a, strtod), b, strtod) == FeedCore(c, a + b, strtod)
    decreases |a|, if c.lex == LexStart then 0 else 1
  {
    hide LexInput;
    if a == [] {
      assert a + b == b;
    } else if !c.parser.done {
      var (d, consumed) := LexInput(c, a[0], strtod);
      assert (a + b)[0] == a[0];
      if d.parser.done {
      } else if consumed {
        assert (a + b)[1..] == a[1..] + b;
        FeedCoreConcat(d, a[1..], b, strtod);
      } else {
        FeedCoreConcat(d, a, b, strtod);
      }
    }
  }

  // ----- with positions

  datatype Position = Position(line: nat, column: nat, byte: nat)

  /** All of struct json_parser; `errorAt` is the position in the message of `error`. */
  datatype State = State(core: Core, position: Position, errorAt: Position)

  function Created(trailer: bool): State {
    State(Fresh(trailer), Position(0, 0, 0), Position(0, 0, 0))
  }

  function Advance(p: Position, b: Byte): Position {
    if b == '\n' then Position(p.line + 1, 0, p.byte + 1) else Position(p.line, p.column + 1, p.byte + 1)
  }

  /** An error that is new gets the current position. */
  function Stamp(before: Core, after: Core, s: State): State {
    State(after, s.position,
          if before.parser.error.None? && after.parser.error.Some? then s.position else s.errorAt)
  }

  /** One call of json_lex_input and the bookkeeping behind it. */
  function Step(s: State, b: Byte, strtod: Strtod): (r: (State, bool))
    requires CoreValid(s.core)
    ensures CoreValid(r.0.core)
  {
    var (d, consumed) := LexInput(s.core, b, strtod);
    var t := Stamp(s.core, d, s);
    (if consumed then t.(position := Advance(t.position, b)) else t, consumed)
  }

  /** json_parser_feed: the new state and the number of bytes consumed. */
  function Feed(s: State, input: Bytes, strtod: Strtod): (r: (State, nat))
    requires CoreValid(s.core)
    ensures CoreValid(r.0.core) && r.1 <= |input|
    ensures r.1 < |input| ==> r.0.core.parser.done
    decreases |input|, if s.core.lex == LexStart then 0 else 1
  {
    if input == [] || s.core.parser.done then (s, 0)
    else
      var (t, consumed) := Step(s, input[0], strtod);
      if consumed then
        var (u, n) := Feed(t, input[1..], strtod);
        (u, n + 1)
      else if t.core.parser.done then (t, 0)
      else Feed(t, input, strtod)
  }

  lemma {:induction false} FeedForgetsPositions(s: State, input: Bytes, strtod: Strtod)
    requires CoreValid(s.core)
    ensures Feed(s, input, strtod).0.core == FeedCore(s.core, input, strtod)
    decreases |input|, if s.core.lex == LexStart then 0 else 1
  {
    if input != [] && !s.core.parser.done {
      var (t, consumed) := Step(s, input[0], strtod);
      if consumed {
        FeedForgetsPositions(t, input[1..], strtod);
      } else if !t.core.parser.done {
        FeedForgetsPositions(t, input, strtod);
      }
    }
  }

  lemma FeedStep(s: State, b: Byte, rest: Bytes, strtod: Strtod)
    requires CoreValid(s.core) && !s.core.parser.done
    ensures var (t, consumed) := Step(s, b, strtod);
            var whole := Feed(s, [b] + rest, strtod);
            && (consumed ==> whole == (Feed(t, rest, strtod).0, Feed(t, rest, strtod).1 + 1))
            && (!consumed ==> s.core.lex != LexStart)
            && (!consumed && t.core.parser.done ==> whole == (t, 0))
            && (!consumed && !t.core.parser.done ==> t.core.lex == LexStart && whole == Feed(t, [b] + rest, strtod))
  {
    hide LexInput;
    assert ([b] + rest)[1..] == rest;
  }

  lemma FeedNothing(s: State, input: Bytes, strtod: Strtod)
    requires CoreValid(s.core) && (s.core.parser.done || input == [])
    ensures Feed(s, input, strtod) == (s, 0)
  {
  }

  /** Feeding a and then b leaves the same lexer, parser, error and positions as feeding a + b,
      and consumes as many bytes. */
  lemma {:induction false} FeedConcat(s: State, a: Bytes, b: Bytes, strtod: Strtod)
    requires CoreValid(s.core)
    ensures Feed(s, a + b, strtod).0 == Feed(Feed(s, a, strtod).0, b, strtod).0
    ensures Feed(s, a + b, strtod).1 == Feed(s, a, strtod).1 + Feed(Feed(s, a, strtod).0, b, strtod).1
    decreases |a|, if s.core.lex == LexStart then 0 else 1
  {
    hide LexInput;
    hide Step;
    hide Feed;
    if a == [] {
      assert a + b == b;
      FeedNothing(s, a, strtod);
    } else if s.core.parser.done {
      FeedNothing(s, a, strtod);
      FeedNothing(s, a + b, strtod);
      FeedNothing(s, b, strtod);
    } else {
      var (t, consumed) := Step(s, a[0], strtod);
      assert a == [a[0]] + a[1..] && a + b == [a[0]] + (a[1..] + b);
      FeedStep(s, a[0], a[1..], strtod);
      FeedStep(s, a[0], a[1..] + b, strtod);
      if consumed {
        FeedConcat(t, a[1..], b, strtod);
      } else if t.core.parser.done {
        FeedNothing(t, b, strtod);
      } else {
        FeedConcat(t, a, b, strtod);
      }
    }
  }

  function Concat(chunks: seq<Bytes>): Bytes {
    if chunks == [] then [] else chunks[0] + Concat(chunks[1..])
  }

  function FeedAll(s: State, chunks: seq<Bytes>, strtod: Strtod): (r: (State, nat))
    requires CoreValid(s.core)
    ensures CoreValid(r.0.core)
    decreases |chunks|
  {
    if chunks == [] then (s, 0)
    else
      var (t, m) := Feed(s, chunks[0], strtod);
      var (u, n) := FeedAll(t, chunks[1..], strtod);
      (u, m + n)
  }

  /** Any split into any number of pieces gives the same result as one piece. */
  lemma {:induction false} ChunkingDoesNotMatter(s: State, chunks: seq<Bytes>, strtod: Strtod)
    requires CoreValid(s.core)
    ensures FeedAll(s, chunks, strtod) == Feed(s, Concat(chunks), strtod)
    decreases |chunks|
  {
    hide Feed;
    if chunks == [] {
      FeedNothing(s, [], strtod);
    } else {
      ChunkingDoesNotMatter(Feed(s, chunks[0], strtod).0, chunks[1..], strtod);
      FeedConcat(s, chunks[0], Concat(chunks[1..]), strtod);
    }
  }

  // ----- the end of the input

  datatype Outcome = Parsed(value: Value) | Failed(kind: ErrorKind, at: Position)

  /** A pending token is ended by a space, a pending string is an error. */
  function EndLexeme(c: Core, strtod: Strtod): (d: Core)
    requires CoreValid(c)
    ensures CoreValid(d)
    ensures c.parser.error.Some? ==> d.parser.error == c.parser.error
  {
    match c.lex
    case LexStart => c
    case LexString => c.(parser := Fail(c.parser, EndInString))
    case LexEscape => c.(parser := Fail(c.parser, EndInString))
    case LexNumber => LexInput(c, ' ', strtod).0
    case LexKeyword => LexInput(c, ' ', strtod).0
  }

  function Incomplete(c: Core): (d: Core)
    requires CoreValid(c)
    ensures CoreValid(d)
    ensures d.parser.error.None? ==> d.parser.state == End
  {
    if c.parser.state == Start then c.(parser := Fail(c.parser, EmptyInput))
    else if c.parser.state != End then c.(parser := Fail(c.parser, UnexpectedEnd))
    else c
  }

  /** json_parser_finish, up to the result: what is missing is an error. */
  function FinishState(s: State, strtod: Strtod): (t: State)
    requires CoreValid(s.core)
    ensures CoreValid(t.core)
  {
    Stamp(s.core, Incomplete(EndLexeme(s.core, strtod)), s)
  }

  /** json_parser_finish.  Both assertions of the C code hold: without an error exactly one
      container is left on the stack. */
  function Finish(s: State, strtod: Strtod): Outcome
    requires CoreValid(s.core)
  {
    var t := FinishState(s, strtod);
    if t.core.parser.error.Some? then Failed(t.core.parser.error.value, t.errorAt)
    else
      assert |t.core.parser.stack| == 1;
      Parsed(t.core.parser.stack[0].node)
  }

  /** json_from_string. */
  function FromString(text: Bytes, strtod: Strtod): Outcome {
    Finish(Feed(Created(true), CString(text), strtod).0, strtod)
  }
}
