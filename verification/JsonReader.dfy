/** struct json_parser as an object: every method updates the fields in place, and is proved to
    do what the functions of JsonParser and JsonLexer say. */
module JsonReader {
  import opened Bytes
  import opened JsonValue
  import opened JsonParser
  import opened JsonLexer
  import JsonCodec
  import JsonNumber

  class Reader {
    const trailer: bool            // flags & JSPF_TRAILER
    const strtod: Strtod

    // lexical analysis
    var lexState: LexState
    var buffer: Bytes
    var lineNumber: nat
    var columnNumber: nat
    var byteNumber: nat

    // parsing
    var parseState: ParseState
    var stack: seq<Frame>
    var memberName: Option<Bytes>

    // status
    var done: bool
    var error: Option<ErrorKind>
    var errorAt: Position

    ghost function Parsing(): Parser
      reads this
    {
      Parser(Setup(trailer, MAX_HEIGHT), parseState, stack, memberName, done, error)
    }

    ghost function Lexing(): Core
      reads this
    {
      Core(lexState, buffer, Parsing())
    }

    ghost function Contents(): State
      reads this
    {
      State(Lexing(), Position(lineNumber, columnNumber, byteNumber), errorAt)
    }

    ghost predicate Consistent()
      reads this
    {
      CoreValid(Lexing())
    }

    /** json_parser_create. */
    constructor (trailer: bool, strtod: Strtod)
      ensures this.trailer == trailer && this.strtod == strtod
      ensures Contents() == Created(trailer) && Consistent()
    {
      this.trailer := trailer;
      this.strtod := strtod;
      lexState, buffer := LexStart, [];
      lineNumber, columnNumber, byteNumber := 0, 0, 0;
      parseState, stack, memberName := Start, [], None;
      done, error, errorAt := false, None, Position(0, 0, 0);
    }

    /** json_error. */
    method Error(kind: ErrorKind)
      modifies this`error, this`errorAt, this`done
      ensures Contents() == Stamp(old(Lexing()), old(Lexing()).(parser := Fail(old(Parsing()), kind)), old(Contents()))
    {
      if error.None? {
        error := Some(kind);
        errorAt := Position(lineNumber, columnNumber, byteNumber);
        done := true;
      }
    }

    /** json_parser_put_value. */
    method PutValue(v: Value)
      requires stack != [] && IsOpen(Top(Parsing()).node)
      requires Top(Parsing()).node.VObject? ==> memberName.Some?
      modifies this`stack, this`memberName
      ensures Parsing() == JsonParser.PutValue(old(Parsing()), v)
    {
      var top := |stack| - 1;
      match stack[top].node {
        case VObject(m) =>
          stack := stack[..top] + [Frame(VObject(m[memberName.value := v]), memberName.value)];
          memberName := None;
        case VArray(es) =>
          stack := stack[..top] + [Frame(VArray(es + [v]), stack[top].slot)];
      }
    }

    /** json_parser_push. */
    method Push(v: Value, state: ParseState)
      requires stack != [] ==> IsOpen(Top(Parsing()).node) && (Top(Parsing()).node.VObject? ==> memberName.Some?)
      modifies this`stack, this`memberName, this`parseState, this`error, this`errorAt, this`done
      ensures Contents() == Stamp(old(Lexing()), old(Lexing()).(parser := JsonParser.Push(old(Parsing()), v, state)), old(Contents()))
    {
      if |stack| < MAX_HEIGHT {
        if |stack| > 0 {
          PutValue(v);
        }
        stack := stack + [Frame(v, [])];
        parseState := state;
      } else {
        Error(TooDeep);
      }
    }

    /** json_parse_value. */
    method ParseValue(t: Token, next: ParseState)
      requires stack != [] && IsOpen(Top(Parsing()).node) && (Top(Parsing()).node.VObject? ==> memberName.Some?)
      modifies this`stack, this`memberName, this`parseState, this`error, this`errorAt, this`done
      ensures Contents() == Stamp(old(Lexing()), old(Lexing()).(parser := JsonParser.ParseValue(old(Parsing()), t, next)), old(Contents()))
    {
      hide JsonParser.Push;
      hide JsonParser.PutValue;
      hide Fail;
      hide Linked;
      var value: Value;
      match t {
        case FalseToken => value := VFalse;
        case NullToken => value := VNull;
        case TrueToken => value := VTrue;
        case BeginObject =>
          Push(VObject(map[]), ObjectInit);
          return;
        case BeginArray =>
          Push(VArray([]), ArrayInit);
          return;
        case IntegerToken(n) => value := VInteger(n);
        case RealToken(d) => value := VReal(d);
        case StringToken(s) => value := VString(s);
        case _ =>
          Error(ExpectingValue);
          return;
      }
      PutValue(value);
      parseState := next;
    }

    /** json_parser_pop. */
    method Pop()
      requires Valid(Parsing()) && stack != []
      modifies this`stack, this`parseState, this`done
      ensures Parsing() == JsonParser.Pop(old(Parsing()))
    {
      var top := |stack| - 1;
      if top == 0 {
        stack := [Frame(stack[0].node, [])];
        parseState := End;
        if !trailer {
          done := true;
        }
      } else {
        var below := stack[top - 1];
        assert Linked(below);
        stack := stack[..top - 1] + [below.(node := Plug(below, stack[top].node))];
        parseState := if below.node.VArray? then ArrayNext else ObjectNext;
      }
    }

    /** json_parser_input.  The branches of the C code that abort are not there: Valid excludes
        them. */
    method Input(t: Token)
      requires Valid(Parsing())
      modifies this`stack, this`memberName, this`parseState, this`error, this`errorAt, this`done, this`lexState, this`buffer
      ensures Contents() == Stamp(old(Lexing()), Deliver(old(Lexing()), Lexeme(t)), old(Contents()))
    {
      hide JsonParser.Input;
      Accept(t);
      lexState := LexStart;
      buffer := [];
    }

    /** Its switch on the state of the parser. */
    method Accept(t: Token)
      requires Valid(Parsing())
      modifies this`stack, this`memberName, this`parseState, this`error, this`errorAt, this`done
      ensures Contents() == Stamp(old(Lexing()), old(Lexing()).(parser := JsonParser.Input(old(Parsing()), t)), old(Contents()))
    {
      hide JsonParser.Push;
      hide JsonParser.Pop;
      hide JsonParser.ParseValue;
      hide Fail;
      hide Linked;
      match parseState {
        case Start =>
          if t == BeginObject {
            Push(VObject(map[]), ObjectInit);
          } else if t == BeginArray {
            Push(VArray([]), ArrayInit);
          } else {
            Error(AtBeginning);
          }
        case End => Error(TrailingGarbage);
        case ObjectInit =>
          if t == EndObject {
            Pop();
          } else {
            InputName(t);
          }
        case ObjectName => InputName(t);
        case ObjectColon =>
          if t == NameSeparator {
            parseState := ObjectValue;
          } else {
            Error(ExpectingColon);
          }
        case ObjectValue => ParseValue(t, ObjectNext);
        case ObjectNext =>
          if t == ValueSeparator {
            parseState := ObjectName;
          } else if t == EndObject {
            Pop();
          } else {
            Error(ExpectingObjectNext);
          }
        case ArrayInit =>
          if t == EndArray {
            Pop();
          } else {
            ParseValue(t, ArrayNext);
          }
        case ArrayValue => ParseValue(t, ArrayNext);
        case ArrayNext =>
          if t == ValueSeparator {
            parseState := ArrayValue;
          } else if t == EndArray {
            Pop();
          } else {
            Error(ExpectingArrayNext);
          }
      }
    }

    method InputName(t: Token)
      modifies this`memberName, this`parseState, this`error, this`errorAt, this`done
      ensures Contents() == Stamp(old(Lexing()), old(Lexing()).(parser := JsonParser.InputName(old(Parsing()), t)), old(Contents()))
    {
      if t.StringToken? {
        memberName := Some(t.s);
        parseState := ObjectColon;
      } else {
        Error(ExpectingName);
      }
    }

    /** json_lex_keyword. */
    method LexKeyword()
      requires Valid(Parsing())
      modifies this
      ensures Contents() == Stamp(old(Lexing()), Deliver(old(Lexing()), KeywordLexeme(CString(old(buffer)))), old(Contents()))
    {
      var s := CString(buffer);
      if s == "false" {
        Input(FalseToken);
      } else if s == "true" {
        Input(TrueToken);
      } else if s == "null" {
        Input(NullToken);
      } else {
        Error(InvalidKeyword);
      }
    }

    /** json_lex_number, around the scanner. */
    method LexNumber()
      requires Valid(Parsing())
      modifies this
      ensures Contents() == Stamp(old(Lexing()), Deliver(old(Lexing()), NumberLexeme(CString(old(buffer)), strtod)), old(Contents()))
    {
      hide JsonNumber.ScanNumber;
      var text := CString(buffer);
      var r := JsonNumber.LexNumber(text);
      match r {
        case NumBad(e) => Error(InNumber(e));
        case NumInteger(n) => Input(IntegerToken(n));
        case NumReal =>
          var d := strtod.convert(text);
          if d.Some? {
            Input(RealToken(if strtod.isZero(d.value) then strtod.zero else d.value));
          } else {
            Error(OutOfRange);
          }
      }
    }

    /** json_lex_string. */
    method LexString()
      requires Valid(Parsing())
      modifies this
      ensures Contents() == Stamp(old(Lexing()), Deliver(old(Lexing()), StringLexeme(CString(old(buffer)))), old(Contents()))
    {
      hide JsonCodec.Unescape;
      var raw := CString(buffer);
      if '\\' !in raw {
        Input(StringToken(raw));
      } else {
        var cooked := JsonCodec.StringUnescape(raw);
        match cooked {
          case Text(text) => Input(StringToken(text));
          case Bad(e) => Error(InString(e));
        }
      }
    }

    /** json_lex_input. */
    method LexInput(b: Byte) returns (consumed: bool)
      requires Consistent()
      modifies this
      ensures Consistent()
      ensures (Lexing(), consumed) == JsonLexer.LexInput(old(Lexing()), b, strtod)
      ensures Contents() == Stamp(old(Lexing()), Lexing(), old(Contents()))
    {
      hide KeywordLexeme;
      hide NumberLexeme;
      hide StringLexeme;
      match lexState {
        case LexStart =>
          if IsSpace(b) {
            return true;
          } else if IsLower(b) {
            lexState := LexState.LexKeyword;
          } else if Punctuation(b).Some? {
            InputValid(Parsing(), Punctuation(b).value);
            Input(Punctuation(b).value);
            return true;
          } else if b == '-' || JsonNumber.IsDigit(b) {
            lexState := LexState.LexNumber;
          } else if b == '"' {
            lexState := LexState.LexString;
            return true;
          } else {
            Error(InvalidCharacter(b));
            return true;
          }
        case LexKeyword =>
          if !IsAlpha(b) {
            DeliverValid(Lexing(), KeywordLexeme(CString(buffer)));
            LexKeyword();
            return false;
          }
        case LexNumber =>
          if !IsNumberByte(b) {
            DeliverValid(Lexing(), NumberLexeme(CString(buffer), strtod));
            LexNumber();
            return false;
          }
        case LexString =>
          if b == '\\' {
            lexState := LexEscape;
          } else if b == '"' {
            DeliverValid(Lexing(), StringLexeme(CString(buffer)));
            LexString();
            return true;
          } else if b as int < 0x20 {
            Error(Unescaped(b));
            return true;
          }
        case LexEscape =>
          lexState := LexState.LexString;
      }
      assert old(lexState) == LexStart ==> buffer + [b] == [b];
      buffer := buffer + [b];
      return true;
    }

    /** json_parser_feed: the number of bytes consumed. */
    method Feed(input: Bytes) returns (i: nat)
      requires Consistent()
      modifies this
      ensures Consistent()
      ensures (Contents(), i) == JsonLexer.Feed(old(Contents()), input, strtod)
    {
      hide JsonLexer.Feed;
      hide JsonLexer.LexInput;
      hide Valid;
      i := 0;
      ghost var start := Contents();
      assert input[0..] == input;
      while !done && i < |input|
        invariant Consistent() && i <= |input|
        invariant Remains(start, input, Contents(), i, strtod)
        decreases |input| - i, !done, if lexState == LexStart then 0 else 1
      {
        FeedAt(Contents(), input, i, strtod);
        var consumed := LexInput(input[i]);
        if consumed {
          byteNumber := byteNumber + 1;
          if input[i] == '\n' {
            columnNumber := 0;
            lineNumber := lineNumber + 1;
          } else {
            columnNumber := columnNumber + 1;
          }
          i := i + 1;
        }
      }
      FeedNothing(Contents(), input[i..], strtod);
    }

    /** json_parser_finish.  Both assertions of the C code hold. */
    method Finish() returns (outcome: Outcome)
      requires Consistent()
      modifies this
      ensures outcome == JsonLexer.Finish(old(Contents()), strtod)
    {
      hide JsonLexer.LexInput;
      match lexState {
        case LexStart =>
        case LexString => Error(EndInString);
        case LexEscape => Error(EndInString);
        case LexNumber => var _ := LexInput(' ');
        case LexKeyword => var _ := LexInput(' ');
      }
      assert Lexing() == EndLexeme(old(Lexing()), strtod);
      if parseState == Start {
        Error(EmptyInput);
      } else if parseState != End {
        Error(UnexpectedEnd);
      }
      assert Contents() == FinishState(old(Contents()), strtod);
      if error.None? {
        assert |stack| == 1;
        outcome := Parsed(stack[0].node);
      } else {
        outcome := Failed(error.value, errorAt);
      }
    }
  }

  /** After `i` bytes of the input the reader is in state `s`, with the rest still to come. */
  ghost predicate Remains(start: State, input: Bytes, s: State, i: nat, strtod: Strtod)
    requires CoreValid(start.core) && CoreValid(s.core) && i <= |input|
  {
    var rest := JsonLexer.Feed(s, input[i..], strtod);
    JsonLexer.Feed(start, input, strtod) == (rest.0, i + rest.1)
  }

  lemma FeedAt(s: State, input: Bytes, i: nat, strtod: Strtod)
    requires CoreValid(s.core) && !s.core.parser.done && i < |input|
    ensures var (t, consumed) := Step(s, input[i], strtod);
            var whole := JsonLexer.Feed(s, input[i..], strtod);
            && (consumed ==> whole == (JsonLexer.Feed(t, input[i + 1..], strtod).0, JsonLexer.Feed(t, input[i + 1..], strtod).1 + 1))
            && (!consumed ==> s.core.lex != LexStart && whole == JsonLexer.Feed(t, input[i..], strtod))
            && (!consumed ==> t.core.parser.done || t.core.lex == LexStart)
  {
    hide JsonLexer.Feed;
    hide JsonLexer.LexInput;
    assert input[i..] == [input[i]] + input[i + 1..];
    FeedStep(s, input[i], input[i + 1..], strtod);
    var (t, consumed) := Step(s, input[i], strtod);
    if !consumed && t.core.parser.done { FeedNothing(t, input[i..], strtod); }
  }

  /** json_from_string. */
  method FromString(text: Bytes, strtod: Strtod) returns (outcome: Outcome)
    ensures outcome == JsonLexer.FromString(text, strtod)
  {
    var p := new Reader(true, strtod);
    var _ := p.Feed(CString(text));
    outcome := p.Finish();
  }

  /** json_from_stream, the chunks being what fread returns until it returns nothing: the same
      outcome as for the whole contents at once. */
  method FromStream(chunks: seq<Bytes>, strtod: Strtod) returns (outcome: Outcome)
    requires forall i :: 0 <= i < |chunks| ==> chunks[i] != []
    ensures outcome == JsonLexer.Finish(JsonLexer.Feed(Created(true), Concat(chunks), strtod).0, strtod)
  {
    hide JsonLexer.Feed;
    hide JsonLexer.Finish;
    var p := new Reader(true, strtod);
    var i := 0;
    assert chunks[0..] == chunks;
    while i < |chunks|
      invariant i <= |chunks| && p.Consistent() && p.strtod == strtod
      invariant FeedAll(p.Contents(), chunks[i..], strtod).0 == FeedAll(Created(true), chunks, strtod).0
    {
      assert chunks[i..][0] == chunks[i] && chunks[i..][1..] == chunks[i + 1..];
      var n := p.Feed(chunks[i]);
      i := i + 1;
      if n != |chunks[i - 1]| {
        FeedAllDone(p.Contents(), chunks[i..], strtod);
        break;
      }
    }
    ChunkingDoesNotMatter(Created(true), chunks, strtod);
    assert chunks[|chunks|..] == [];
    outcome := p.Finish();
  }

  lemma {:induction false} FeedAllDone(s: State, chunks: seq<Bytes>, strtod: Strtod)
    requires CoreValid(s.core) && s.core.parser.done
    ensures FeedAll(s, chunks, strtod) == (s, 0)
    decreases |chunks|
  {
    if chunks != [] {
      FeedNothing(s, chunks[0], strtod);
      FeedAllDone(s, chunks[1..], strtod);
    }
  }
}
