/** Which texts json_from_string accepts: section 2 of RFC 4627, from bytes to the document. */
module JsonText {
  import opened Bytes
  import opened JsonValue
  import opened JsonParser
  import opened JsonLexer
  import opened JsonGrammar
  import opened JsonRoundTrip
  import JsonCodec
  import JsonNumber
  import JsonNumberExact
  import JsonNumberErrors
  import JsonStringExact

  // ----- the grammar of texts

  ghost predicate Blank(s: Bytes) {
    forall i :: 0 <= i < |s| ==> s[i] in {' ', '\t', '\n', '\r'}
  }

  ghost predicate IsPunctuation(s: Bytes, t: Token) {
    || (s == ['['] && t == BeginArray) || (s == [']'] && t == EndArray)
    || (s == ['{'] && t == BeginObject) || (s == ['}'] && t == EndObject)
    || (s == [':'] && t == NameSeparator) || (s == [','] && t == ValueSeparator)
  }

  /** The double that strtod makes of the text, without the sign of a zero. */
  ghost predicate IsReal(s: Bytes, d: Double, strtod: Strtod) {
    exists e :: strtod.convert(s) == Some(e) && d == if strtod.isZero(e) then strtod.zero else e
  }

  /** A literal of section 2.4 inside the guards, and its token: an integer if it stands for one of
      64 bits, and a real otherwise. */
  ghost predicate IsNumeral(l: JsonNumberExact.Literal, s: Bytes, t: Token, strtod: Strtod) {
    && JsonNumberExact.IsLiteral(l, s)
    && match t
       case IntegerToken(n) => JsonNumberExact.IsInteger(l, n)
       case RealToken(d) => (forall n :: !JsonNumberExact.IsInteger(l, n)) && IsReal(s, d, strtod)
       case _ => false
  }

  ghost predicate IsNumber(s: Bytes, t: Token, strtod: Strtod) {
    exists l :: IsNumeral(l, s, t, strtod)
  }

  /** Characters of section 2.5 between quotes. */
  ghost predicate InQuotes(cs: seq<JsonStringExact.Char>, s: Bytes, t: Token) {
    && JsonStringExact.AllWellFormed(cs) && s == ['"'] + JsonStringExact.Render(cs) + ['"']
    && t == StringToken(JsonStringExact.Means(cs))
  }

  ghost predicate IsQuoted(s: Bytes, t: Token) {
    exists cs :: InQuotes(cs, s, t)
  }

  /** `s` is a way to write the token `t`. */
  ghost predicate Spells(s: Bytes, t: Token, strtod: Strtod) {
    || IsPunctuation(s, t)
    || IsKeyword(s, t)
    || IsQuoted(s, t)
    || IsNumber(s, t, strtod)
  }

  /** White space, tokens with white space before each of them, and white space. */
  ghost predicate Written(text: Bytes, tokens: seq<Token>, strtod: Strtod)
    decreases |tokens|, 1
  {
    if tokens == [] then Blank(text)
    else exists k: nat, l: nat :: WrittenAt(text, tokens, k, l, strtod)
  }

  /** The first token stands at k..l. */
  ghost predicate WrittenAt(text: Bytes, tokens: seq<Token>, k: nat, l: nat, strtod: Strtod)
    requires tokens != []
    decreases |tokens|, 0
  {
    && k <= l <= |text| && Blank(text[..k]) && Spells(text[k..l], tokens[0], strtod)
    && Written(text[l..], tokens[1..], strtod)
  }

  /** The text of a document nested at most MAX_HEIGHT deep. */
  ghost predicate IsText(j: Json, text: Bytes, strtod: Strtod) {
    IsContainer(j) && Depth(j) <= MAX_HEIGHT && Written(text, TokensOf(j), strtod)
  }

  // ----- numbers

  /** json_lex_number makes a token of a text if and only if the text is a literal inside the
      guards that stands for an integer of 64 bits, or that strtod accepts; and it is that integer,
      or the double that strtod makes of it, without the sign of a zero. */
  lemma NumberIff(s: Bytes, t: Token, strtod: Strtod)
    ensures NumberLexeme(s, strtod) == Lexeme(t) <==> IsNumber(s, t, strtod)
  {
    hide JsonNumber.ScanNumber;
    hide JsonNumberExact.IsInteger;
    JsonNumberExact.AcceptsLiterals(s);
    forall l | JsonNumberExact.IsLiteral(l, s)
      ensures NumberLexeme(s, strtod) == Lexeme(t) <==> IsNumeral(l, s, t, strtod)
    {
      JsonNumberExact.TokenOfLiteral(l, s);
    }
  }

  ghost predicate IsOnlyReal(l: JsonNumberExact.Literal, s: Bytes) {
    JsonNumberExact.IsLiteral(l, s) && forall n :: !JsonNumberExact.IsInteger(l, n)
  }

  /** When a number is refused, and how: a text that is no literal inside the guards, and a literal
      that stands for no integer of 64 bits and that strtod does not convert. */
  lemma NumberRefused(s: Bytes, strtod: Strtod)
    ensures (exists e :: NumberLexeme(s, strtod) == Mistake(InNumber(e))) <==> !exists l :: JsonNumberExact.IsLiteral(l, s)
    ensures NumberLexeme(s, strtod) == Mistake(OutOfRange)
       <==> strtod.convert(s).None? && exists l :: IsOnlyReal(l, s)
  {
    hide JsonNumber.ScanNumber;
    hide JsonNumberExact.IsInteger;
    JsonNumberExact.AcceptsLiterals(s);
    forall l | JsonNumberExact.IsLiteral(l, s)
      ensures JsonNumber.ScanNumber(s).NumReal? <==> IsOnlyReal(l, s)
    {
      JsonNumberExact.TokenOfLiteral(l, s);
    }
    if JsonNumber.ScanNumber(s).NumBad? {
      assert NumberLexeme(s, strtod) == Mistake(InNumber(JsonNumber.ScanNumber(s).error));
    }
  }

  // ----- the automaton between tokens

  /** No scalar ends a document, and only punctuation follows one. */
  lemma ScalarNeverEnds(p: Parser, t: Token)
    requires Valid(p) && Scalar(t).Some? && Input(p, t).error.None?
    ensures Input(p, t).state in {ObjectColon, ObjectNext, ArrayNext} && !p.done
    ensures Input(p, t).state == ObjectColon ==> t.StringToken?
    ensures !Input(p, t).done
  {
    InputValid(p, t);
  }

  lemma AcceptingStep(p: Parser, tokens: seq<Token>)
    requires Valid(p) && p.setup.trailer && tokens != [] && Accepting(Run(p, tokens))
    ensures !p.done && p.state != End && Valid(Input(p, tokens[0])) && Input(p, tokens[0]).error.None?
    ensures Run(p, tokens) == Run(Input(p, tokens[0]), tokens[1..])
    ensures Input(p, tokens[0]).setup.trailer
  {
    assert tokens == [tokens[0]] + tokens[1..];
    if !p.done { RunStep(p, tokens[0], tokens[1..]); }
    SetupStays(p, tokens[0]);
  }

  lemma PunctuationFollows(p: Parser, tokens: seq<Token>)
    requires Valid(p) && p.setup.trailer && p.state in {ObjectNext, ArrayNext} && Accepting(Run(p, tokens))
    ensures tokens != [] && tokens[0] in {ValueSeparator, EndObject, EndArray}
  {
    if tokens != [] { AcceptingStep(p, tokens); }
  }

  // ----- texts of the grammar are read as their tokens

  lemma NumberText(s: Bytes, t: Token, strtod: Strtod)
    requires IsNumber(s, t, strtod)
    ensures s != [] && (s[0] == '-' || JsonNumber.IsDigit(s[0])) && forall i :: 0 <= i < |s| ==> IsNumberByte(s[i])
  {
    var l :| IsNumeral(l, s, t, strtod);
    NumberBytes(l);
  }

  lemma {:induction false} FeedRaw(u: Bytes, p: Parser, s: Bytes, rest: Bytes, strtod: Strtod)
    requires Valid(p) && !p.done && JsonStringExact.IsRaw(s)
    ensures FeedCore(Core(LexString, u, p), s + rest, strtod) == FeedCore(Core(LexString, u + s, p), rest, strtod)
    decreases |s|
  {
    hide FeedCore;
    hide Valid;
    if s == [] {
      assert s + rest == rest && u + s == u;
    } else if s[0] == '\\' {
      assert s + rest == ['\\', s[1]] + (s[2..] + rest);
      FeedBackslash(u, p, s[1], s[2..] + rest, strtod);
      FeedRaw(u + ['\\', s[1]], p, s[2..], rest, strtod);
      assert u + ['\\', s[1]] + s[2..] == u + s;
    } else {
      assert s + rest == [s[0]] + (s[1..] + rest);
      FeedPlainByte(u, p, s[0], s[1..] + rest, strtod);
      FeedRaw(u + [s[0]], p, s[1..], rest, strtod);
      assert u + [s[0]] + s[1..] == u + s;
    }
  }

  /** The inside of the quotes as the lexer sees it. */
  lemma QuotedIs(raw: Bytes, t: Token)
    ensures IsQuoted(['"'] + raw + ['"'], t) <==> JsonStringExact.IsRaw(raw) && StringLexeme(raw) == Lexeme(t)
  {
    hide JsonCodec.Unescape;
    hide JsonStringExact.IsRaw;
    var s := ['"'] + raw + ['"'];
    if cs :| InQuotes(cs, s, t) {
      SameInside(raw, JsonStringExact.Render(cs));
      assert JsonStringExact.IsString(cs, raw, t.s);
      JsonStringExact.AcceptsStrings(raw, t.s);
    }
    if JsonStringExact.IsRaw(raw) && '\\' !in raw {
      JsonStringExact.RawPlain(raw);
    }
    if JsonStringExact.IsRaw(raw) && StringLexeme(raw) == Lexeme(t) {
      JsonStringExact.AcceptsStrings(raw, t.s);
      var cs :| JsonStringExact.IsString(cs, raw, t.s);
      assert InQuotes(cs, s, t);
    }
  }

  lemma SameInside(a: Bytes, b: Bytes)
    requires ['"'] + a + ['"'] == ['"'] + b + ['"']
    ensures a == b
  {
    assert (['"'] + a + ['"'])[1..|a| + 1] == a && (['"'] + b + ['"'])[1..|b| + 1] == b;
  }

  lemma FeedInside(p: Parser, raw: Bytes, t: Token, rest: Bytes, strtod: Strtod)
    requires Valid(p) && !p.done && NulFree(raw) && JsonStringExact.IsRaw(raw) && StringLexeme(raw) == Lexeme(t)
    ensures FeedCore(At(p), ['"'] + raw + ['"'] + rest, strtod) == FeedCore(At(Run(p, [t])), rest, strtod)
  {
    hide FeedCore;
    hide Valid;
    hide StringLexeme;
    hide JsonStringExact.IsRaw;
    var tail := ['"'] + rest;
    assert ['"'] + raw + ['"'] + rest == ['"'] + (raw + tail);
    FeedFirst(p, '"', raw + tail, strtod);
    FeedRaw([], p, raw, tail, strtod);
    assert [] + raw == raw;
    FeedClosingQuote(p, raw, t, rest, strtod);
  }

  lemma FeedQuoted(p: Parser, s: Bytes, t: Token, rest: Bytes, strtod: Strtod)
    requires Valid(p) && !p.done && NulFree(s) && IsQuoted(s, t)
    ensures FeedCore(At(p), s + rest, strtod) == FeedCore(At(Run(p, [t])), rest, strtod)
  {
    hide FeedCore;
    hide Valid;
    hide StringLexeme;
    var cs :| InQuotes(cs, s, t);
    var raw := JsonStringExact.Render(cs);
    assert forall i :: 0 <= i < |raw| ==> raw[i] == s[i + 1];
    QuotedIs(raw, t);
    FeedInside(p, raw, t, rest, strtod);
  }

  /** Between a number or a keyword and the next token's text there is a delimiter. */
  lemma NextDelimits(text: Bytes, tokens: seq<Token>, strtod: Strtod)
    requires NulFree(text) && tokens != [] && tokens[0] in {ValueSeparator, EndObject, EndArray}
    requires Written(text, tokens, strtod)
    ensures Delimits(text)
  {
    hide Spells;
    hide IsNumberByte;
    hide IsSpace;
    var k: nat, l: nat :| WrittenAt(text, tokens, k, l, strtod);
    if k > 0 {
      assert text[..k][0] == text[0];
    } else {
      PunctuationText(text[k..l], tokens[0], strtod);
      assert text[k..l][0] == text[0];
    }
    Delimiter(text[0]);
  }

  lemma Delimiter(b: Byte)
    requires b as int != 0 && (b in {' ', '\t', '\n', '\r'} || Punctuation(b).Some?)
    ensures !IsAlpha(b) && !IsNumberByte(b)
  {
    assert ".0123456789eE-+" == ['.'] + "0123456789" + ['e', 'E', '-', '+'];
    assert " \t\n\r" == [' ', '\t', '\n', '\r'];
  }

  lemma PunctuationText(s: Bytes, t: Token, strtod: Strtod)
    requires Spells(s, t, strtod) && Scalar(t).None?
    ensures |s| == 1 && Punctuation(s[0]) == Some(t)
  {
  }

  /** One token of an accepted sequence. */
  lemma FeedToken(p: Parser, s: Bytes, tokens: seq<Token>, rest: Bytes, strtod: Strtod)
    requires Valid(p) && p.setup.trailer && tokens != [] && Accepting(Run(p, tokens))
    requires NulFree(s) && NulFree(rest) && Spells(s, tokens[0], strtod) && Written(rest, tokens[1..], strtod)
    ensures FeedCore(At(p), s + rest, strtod) == FeedCore(At(Run(p, [tokens[0]])), rest, strtod)
  {
    hide FeedCore;
    hide Written;
    hide NumberLexeme;
    hide IsNumber;
    hide IsQuoted;
    hide Input;
    var t := tokens[0];
    AcceptingStep(p, tokens);
    if IsPunctuation(s, t) {
      ReadsPunctuation(s[0], strtod);
      assert s == [s[0]];
      assert ReadsAt(p, [s[0]], [t], rest, strtod);
    } else if IsQuoted(s, t) {
      FeedQuoted(p, s, t, rest, strtod);
    } else {
      NotString(s, t, strtod);
      ScalarNeverEnds(p, t);
      PunctuationFollows(Input(p, t), tokens[1..]);
      NextDelimits(rest, tokens[1..], strtod);
      if IsKeyword(s, t) {
        FeedKeyword(p, s, t, rest, strtod);
      } else {
        NumberIff(s, t, strtod);
        NumberText(s, t, strtod);
        FeedNumber(p, s, t, rest, strtod);
      }
    }
  }

  lemma NotString(s: Bytes, t: Token, strtod: Strtod)
    requires IsKeyword(s, t) || IsNumber(s, t, strtod)
    ensures Scalar(t).Some? && !t.StringToken?
  {
  }

  lemma {:induction false} WrittenReads(p: Parser, text: Bytes, tokens: seq<Token>, strtod: Strtod)
    requires Valid(p) && p.setup.trailer && NulFree(text) && Written(text, tokens, strtod) && Accepting(Run(p, tokens))
    ensures FeedCore(At(p), text, strtod) == At(Run(p, tokens))
    decreases |tokens|
  {
    hide FeedCore;
    hide Spells;
    hide Run;
    if tokens == [] {
      ReadsSpaces(text, strtod);
      ReadsHere(p, text, [], strtod);
    } else {
      var k: nat, l: nat :| WrittenAt(text, tokens, k, l, strtod);
      var space, s, rest := text[..k], text[k..l], text[l..];
      assert text == space + (s + rest);
      AcceptingStep(p, tokens);
      ReadsSpaces(space, strtod);
      ReadsSpacesHere(p, space, s + rest, strtod);
      FeedToken(p, s, tokens, rest, strtod);
      RunOne(p, tokens[0]);
      WrittenReads(Input(p, tokens[0]), rest, tokens[1..], strtod);
    }
  }

  lemma ReadsSpacesHere(p: Parser, space: Bytes, rest: Bytes, strtod: Strtod)
    requires Valid(p) && Reads(space, [], strtod)
    ensures FeedCore(At(p), space + rest, strtod) == FeedCore(At(p), rest, strtod)
  {
    assert ReadsAt(p, space, [], rest, strtod);
  }

  // ----- and only they are accepted

  /** Reading `text` and then its end: the error there is in the end. */
  function Verdict(c: Core, text: Bytes, strtod: Strtod): Option<ErrorKind>
    requires CoreValid(c)
  {
    Incomplete(EndLexeme(FeedCore(c, text, strtod), strtod)).parser.error
  }

  /** The parser takes the token `t`, and goes on. */
  ghost predicate GoesOn(p: Parser, t: Token, text: Bytes, rest: Bytes, strtod: Strtod)
    requires Valid(p)
  {
    Valid(Input(p, t)) && Verdict(At(p), text, strtod) == Verdict(At(Input(p, t)), rest, strtod)
  }

  lemma FailedStays(c: Core, text: Bytes, strtod: Strtod)
    requires CoreValid(c) && c.parser.error.Some?
    ensures Verdict(c, text, strtod) == c.parser.error
  {
  }

  lemma BlankMore(b: Byte, text: Bytes)
    requires IsSpace(b) && Blank(text)
    ensures Blank([b] + text)
  {
  }

  lemma PrependSpace(b: Byte, text: Bytes, tokens: seq<Token>, strtod: Strtod)
    requires IsSpace(b) && Written(text, tokens, strtod)
    ensures Written([b] + text, tokens, strtod)
  {
    hide Spells;
    hide IsSpace;
    if tokens == [] {
      BlankMore(b, text);
    } else {
      var k: nat, l: nat :| WrittenAt(text, tokens, k, l, strtod);
      BlankMore(b, text[..k]);
      var more := [b] + text;
      assert more[..k + 1] == [b] + text[..k] && more[k + 1..l + 1] == text[k..l] && more[l + 1..] == text[l..];
      assert WrittenAt(more, tokens, k + 1, l + 1, strtod);
    }
  }

  lemma PrependToken(s: Bytes, t: Token, rest: Bytes, tokens: seq<Token>, strtod: Strtod)
    requires Spells(s, t, strtod) && Written(rest, tokens, strtod)
    ensures Written(s + rest, [t] + tokens, strtod)
  {
    hide Spells;
    var text, all := s + rest, [t] + tokens;
    assert text[..0] == [] && text[0..|s|] == s && text[|s|..] == rest && all[1..] == tokens;
    assert WrittenAt(text, all, 0, |s|, strtod);
  }

  /** The longest run of bytes that the lexer collects in the state `lex`. */
  function RunLength(lex: LexState, s: Bytes): (k: nat)
    ensures k <= |s|
    ensures lex in {LexNumber, LexKeyword} ==> IsRun(lex, s[..k])
    ensures lex == LexNumber && k < |s| ==> !IsNumberByte(s[k])
    ensures lex == LexKeyword && k < |s| ==> !IsAlpha(s[k])
  {
    if s == [] || (if lex == LexNumber then !IsNumberByte(s[0]) else !IsAlpha(s[0])) then 0
    else 1 + RunLength(lex, s[1..])
  }

  function Collected(lex: LexState, s: Bytes, strtod: Strtod): Lexeme {
    if lex == LexNumber then NumberLexeme(s, strtod) else KeywordLexeme(s)
  }

  lemma Spelled(lex: LexState, s: Bytes, t: Token, strtod: Strtod)
    requires Collected(lex, s, strtod) == Lexeme(t)
    ensures Spells(s, t, strtod) && Scalar(t).Some? && !t.StringToken?
  {
    hide IsNumber;
    hide NumberLexeme;
    if lex == LexNumber {
      NumberIff(s, t, strtod);
      NotString(s, t, strtod);
    }
  }

  /** The text starts with no token, for this reason. */
  ghost predicate LexWrong(text: Bytes, kind: ErrorKind, strtod: Strtod) {
    text != []
    && match kind
       case InvalidCharacter(c) => text[0] == c && StartsNothing(c)
       case InvalidKeyword => IsLower(text[0]) && NoKeyword(text[..RunLength(LexKeyword, text)])
       case InNumber(e) => StartsNumber(text[0]) && NoNumber(text[..RunLength(LexNumber, text)], e)
       case OutOfRange =>
         && StartsNumber(text[0]) && strtod.convert(text[..RunLength(LexNumber, text)]).None?
         && exists l :: IsOnlyReal(l, text[..RunLength(LexNumber, text)])
       case Unescaped(c) => c as int < 0x20 && exists raw: Bytes, rest: Bytes :: OpenString(raw, [c] + rest, text)
       case InString(e) => exists raw: Bytes, rest: Bytes :: BadString(raw, rest, e, text)
       case EndInString => exists raw: Bytes :: OpenString(raw, [], text) || OpenString(raw, ['\\'], text)
       case _ => false
  }

  ghost predicate StartsNumber(b: Byte) { b == '-' || '0' <= b <= '9' }

  ghost predicate StartsNothing(b: Byte) {
    b !in {' ', '\t', '\n', '\r', '[', ']', '{', '}', ':', ',', '"', '-'} && !('0' <= b <= '9') && !('a' <= b <= 'z')
  }

  ghost predicate NoKeyword(s: Bytes) { s != "false" && s != "true" && s != "null" }

  /** A quote, the inside of a string, and what follows. */
  ghost predicate OpenString(raw: Bytes, rest: Bytes, text: Bytes) {
    JsonStringExact.IsRaw(raw) && text == ['"'] + (raw + rest)
  }

  /** No literal: one stops as the error says. */
  ghost predicate NoNumber(s: Bytes, e: JsonNumber.NumberError) {
    && (forall l :: !JsonNumberExact.IsLiteral(l, s))
    && exists l, head, rest :: JsonNumberErrors.Stops(l, head, rest, s, e)
  }

  /** The inside of a string that is closed; behind some characters there is what the error says. */
  ghost predicate BadString(raw: Bytes, rest: Bytes, e: JsonCodec.UnescapeError, text: Bytes) {
    OpenString(raw, ['"'] + rest, text) && exists cs, wrong :: BadChars(cs, wrong, raw, e)
  }

  ghost predicate BadChars(cs: seq<JsonStringExact.Char>, wrong: Bytes, raw: Bytes, e: JsonCodec.UnescapeError) {
    JsonStringExact.AllWellFormed(cs) && raw == JsonStringExact.Render(cs) + wrong && JsonStringExact.Wrong(wrong, e)
  }

  lemma LexedPunctuation(p: Parser, b: Byte, rest: Bytes, strtod: Strtod)
    requires Valid(p) && !p.done && Punctuation(b).Some?
    ensures GoesOn(p, Punctuation(b).value, [b] + rest, rest, strtod)
  {
    hide FeedCore;
    PunctuationByte(p, b, strtod);
    FeedOne(At(p), b, rest, strtod);
  }

  /** A buffer that is delivered at the end of its run. */
  lemma LexedRun(p: Parser, lex: LexState, s: Bytes, rest: Bytes, strtod: Strtod)
    requires Valid(p) && !p.done && NulFree(s) && lex in {LexNumber, LexKeyword}
    requires rest != [] ==> if lex == LexNumber then !IsNumberByte(rest[0]) else !IsAlpha(rest[0])
    ensures var l := Collected(lex, s, strtod);
            if l.Lexeme? then
              Valid(Input(p, l.token))
              && Verdict(Core(lex, s, p), rest, strtod) == Verdict(At(Input(p, l.token)), rest, strtod)
            else Verdict(Core(lex, s, p), rest, strtod) == Some(l.kind)
  {
    hide NumberLexeme;
    hide KeywordLexeme;
    hide Input;
    var c, l := Core(lex, s, p), Collected(lex, s, strtod);
    if l.Lexeme? { InputValid(p, l.token); }
    Delimiter(' ');
    if rest == [] {
      assert EndLexeme(c, strtod) == Deliver(c, l);
      Ended(c, l, strtod);
    } else {
      assert rest == [rest[0]] + rest[1..];
      assert LexInput(c, rest[0], strtod) == (Deliver(c, l), false);
      Delivered(c, l, rest, strtod);
    }
  }

  /** At the end of the text. */
  lemma Ended(c: Core, l: Lexeme, strtod: Strtod)
    requires CoreValid(c) && !c.parser.done && c.lex in {LexNumber, LexKeyword}
    requires EndLexeme(c, strtod) == Deliver(c, l) && (l.Lexeme? ==> Valid(Input(c.parser, l.token)))
    ensures Verdict(c, [], strtod)
         == if l.Lexeme? then Verdict(At(Input(c.parser, l.token)), [], strtod) else Some(l.kind)
  {
    hide Input;
  }

  /** In front of a byte that does not belong to it. */
  lemma Delivered(c: Core, l: Lexeme, rest: Bytes, strtod: Strtod)
    requires CoreValid(c) && !c.parser.done && rest != []
    requires LexInput(c, rest[0], strtod) == (Deliver(c, l), false) && (l.Lexeme? ==> Valid(Input(c.parser, l.token)))
    ensures Verdict(c, rest, strtod)
         == if l.Lexeme? then Verdict(At(Input(c.parser, l.token)), rest, strtod) else Some(l.kind)
  {
    hide Input;
    hide LexInput;
    hide EndLexeme;
    assert rest == [rest[0]] + rest[1..];
    FeedOne(c, rest[0], rest[1..], strtod);
    if !l.Lexeme? { FailedStays(Deliver(c, l), [], strtod); }
  }

  lemma FirstInRun(lex: LexState, b: Byte)
    requires (lex == LexKeyword && IsLower(b)) || (lex == LexNumber && (b == '-' || JsonNumber.IsDigit(b)))
    ensures IsRun(lex, [b]) && if lex == LexNumber then IsNumberByte(b) else IsAlpha(b)
  {
    if lex == LexNumber {
      assert '-' in ".0123456789eE-+";
      if b != '-' { DigitIsNumberByte(b); }
    }
  }

  lemma LexedFirstRun(p: Parser, lex: LexState, text: Bytes, strtod: Strtod)
    returns (s: Bytes, t: Option<Token>, rest: Bytes)
    requires Valid(p) && !p.done && NulFree(text) && text != []
    requires (lex == LexKeyword && IsLower(text[0])) || (lex == LexNumber && StartsNumber(text[0]))
    ensures Lexed(p, text, s, t, rest, strtod)
  {
    hide FeedCore;
    hide Input;
    hide Spells;
    hide NumberLexeme;
    hide KeywordLexeme;
    var k := RunLength(lex, text);
    FirstInRun(lex, text[0]);
    s, rest := text[..k], text[k..];
    assert text == s + rest;
    FeedText(p, lex, s, rest, strtod);
    LexedRun(p, lex, s, rest, strtod);
    var l := Collected(lex, s, strtod);
    if l.Lexeme? {
      t := Some(l.token);
      Spelled(lex, s, l.token, strtod);
    } else {
      t := None;
      CollectedWrong(lex, text, strtod);
    }
  }

  lemma CollectedWrong(lex: LexState, text: Bytes, strtod: Strtod)
    requires text != [] && ((lex == LexKeyword && IsLower(text[0])) || (lex == LexNumber && StartsNumber(text[0])))
    requires Collected(lex, text[..RunLength(lex, text)], strtod).Mistake?
    ensures LexWrong(text, Collected(lex, text[..RunLength(lex, text)], strtod).kind, strtod)
  {
    hide JsonNumber.ScanNumber;
    hide IsOnlyReal;
    hide RunLength;
    if lex == LexNumber {
      var s := text[..RunLength(lex, text)];
      NumberRefused(s, strtod);
      if JsonNumber.ScanNumber(s).NumBad? { NoNumberIs(s); }
    }
  }

  lemma NoNumberIs(s: Bytes)
    requires JsonNumber.ScanNumber(s).NumBad?
    ensures NoNumber(s, JsonNumber.ScanNumber(s).error)
  {
    hide JsonNumber.ScanNumber;
    hide JsonNumberErrors.Stops;
    hide JsonNumberExact.IsLiteral;
    JsonNumberExact.AcceptsLiterals(s);
    var l, head, rest := JsonNumberErrors.WhyNoNumber(s);
  }

  /** The text starts with the token `t`, written `s`, and the parser goes on behind it; or it starts
      with none, and that is the error. */
  ghost predicate Lexed(p: Parser, text: Bytes, s: Bytes, t: Option<Token>, rest: Bytes, strtod: Strtod)
    requires Valid(p)
  {
    match t
    case Some(token) =>
      && text == s + rest && |rest| < |text| && Spells(s, token, strtod) && GoesOn(p, token, text, rest, strtod)
    case None =>
      && Verdict(At(p), text, strtod).Some? && LexWrong(text, Verdict(At(p), text, strtod).value, strtod)
  }

  /** How far a string goes: to its closing quote, a control character, or the end. */
  lemma {:induction false} RawPrefix(text: Bytes) returns (raw: Bytes, rest: Bytes)
    ensures JsonStringExact.IsRaw(raw) && text == raw + rest
    ensures rest == [] || rest == ['\\'] || rest[0] == '"' || rest[0] as int < 0x20
    decreases |text|
  {
    if text == [] || text == ['\\'] || text[0] == '"' || text[0] as int < 0x20 {
      raw, rest := [], text;
    } else {
      var k := if text[0] == '\\' then 2 else 1;
      assert text[0] == '\\' ==> |text| >= 2;
      raw, rest := RawPrefix(text[k..]);
      assert (text[..k] + raw)[k..] == raw && text == text[..k] + text[k..];
      assert text[..k] + (raw + rest) == (text[..k] + raw) + rest;
      raw := text[..k] + raw;
    }
  }

  /** The lexer behind the inside of a string. */
  lemma LexedInside(p: Parser, raw: Bytes, rest: Bytes, strtod: Strtod)
    requires Valid(p) && !p.done && NulFree(raw) && JsonStringExact.IsRaw(raw)
    ensures Verdict(At(p), ['"'] + (raw + rest), strtod) == Verdict(Core(LexString, raw, p), rest, strtod)
  {
    hide FeedCore;
    hide JsonStringExact.IsRaw;
    FeedFirst(p, '"', raw + rest, strtod);
    FeedRaw([], p, raw, rest, strtod);
    assert [] + raw == raw;
  }

  lemma LexedString(p: Parser, text: Bytes, strtod: Strtod) returns (s: Bytes, t: Option<Token>, rest: Bytes)
    requires Valid(p) && !p.done && NulFree(text) && text != [] && text[0] == '"'
    ensures Lexed(p, text, s, t, rest, strtod)
  {
    hide FeedCore;
    hide Input;
    hide StringLexeme;
    hide JsonStringExact.IsRaw;
    hide Verdict;
    var raw, more := RawPrefix(text[1..]);
    assert text == ['"'] + (raw + more);
    assert forall i :: 0 <= i < |raw| ==> raw[i] == text[i + 1];
    LexedInside(p, raw, more, strtod);
    s, t, rest := [], None, [];
    if more == [] || more == ['\\'] {
      StringOpen(p, raw, more, strtod);
      assert OpenString(raw, more, text);
    } else {
      assert more == [more[0]] + more[1..];
      if more[0] == '"' {
        s, t, rest := StringClosed(p, raw, more[1..], text, strtod);
      } else {
        StringControl(p, raw, more[0], more[1..], strtod);
        assert OpenString(raw, [more[0]] + more[1..], text);
      }
    }
  }

  lemma StringOpen(p: Parser, raw: Bytes, rest: Bytes, strtod: Strtod)
    requires Valid(p) && !p.done && rest in {[], ['\\']}
    ensures Verdict(Core(LexString, raw, p), rest, strtod) == Some(EndInString)
  {
    if rest != [] {
      assert rest == ['\\'] + [];
      FeedOne(Core(LexString, raw, p), '\\', [], strtod);
    }
  }

  lemma StringControl(p: Parser, raw: Bytes, b: Byte, rest: Bytes, strtod: Strtod)
    requires Valid(p) && !p.done && b as int < 0x20
    ensures Verdict(Core(LexString, raw, p), [b] + rest, strtod) == Some(Unescaped(b))
  {
    hide FeedCore;
    var c := Core(LexString, raw, p);
    FeedOne(c, b, rest, strtod);
    FailedStays(LexInput(c, b, strtod).0, rest, strtod);
  }

  lemma StringClosed(p: Parser, raw: Bytes, rest: Bytes, text: Bytes, strtod: Strtod)
    returns (s: Bytes, t: Option<Token>, after: Bytes)
    requires Valid(p) && !p.done && NulFree(raw) && JsonStringExact.IsRaw(raw) && text == ['"'] + (raw + (['"'] + rest))
    requires Verdict(At(p), text, strtod) == Verdict(Core(LexString, raw, p), ['"'] + rest, strtod)
    ensures Lexed(p, text, s, t, after, strtod)
  {
    hide Verdict;
    hide Spells;
    hide StringLexeme;
    hide BadString;
    hide Input;
    hide JsonStringExact.IsRaw;
    var l := StringLexeme(raw);
    StringDelivered(p, raw, rest, strtod);
    s, t, after := ['"'] + raw + ['"'], None, rest;
    assert text == s + after;
    if l.Lexeme? {
      t := Some(l.token);
      StringSpelled(raw, l.token, strtod);
    } else {
      BadInside(raw, rest, text);
    }
  }

  lemma StringDelivered(p: Parser, raw: Bytes, rest: Bytes, strtod: Strtod)
    requires Valid(p) && !p.done && NulFree(raw)
    ensures var l, v := StringLexeme(raw), Verdict(Core(LexString, raw, p), ['"'] + rest, strtod);
            match l
            case Lexeme(t) => Valid(Input(p, t)) && v == Verdict(At(Input(p, t)), rest, strtod)
            case Mistake(kind) => v == Some(kind)
  {
    hide FeedCore;
    hide Input;
    hide StringLexeme;
    var c, l := Core(LexString, raw, p), StringLexeme(raw);
    FeedOne(c, '"', rest, strtod);
    if l.Lexeme? {
      InputValid(p, l.token);
    } else {
      FailedStays(Deliver(c, l), rest, strtod);
    }
  }

  lemma StringSpelled(raw: Bytes, t: Token, strtod: Strtod)
    requires JsonStringExact.IsRaw(raw) && StringLexeme(raw) == Lexeme(t)
    ensures Spells(['"'] + raw + ['"'], t, strtod)
  {
    QuotedIs(raw, t);
  }

  lemma BadInside(raw: Bytes, rest: Bytes, text: Bytes)
    requires JsonStringExact.IsRaw(raw) && StringLexeme(raw).Mistake? && text == ['"'] + (raw + (['"'] + rest))
    ensures StringLexeme(raw).kind.InString? && BadString(raw, rest, StringLexeme(raw).kind.reason, text)
  {
    hide JsonCodec.Unescape;
    hide JsonStringExact.IsRaw;
    hide JsonStringExact.Wrong;
    var cs, wrong := JsonStringExact.WhyRefused(raw);
    assert BadChars(cs, wrong, raw, StringLexeme(raw).kind.reason);
  }

  lemma LexedNothing(p: Parser, b: Byte, rest: Bytes, strtod: Strtod)
    requires Valid(p) && !p.done && StartsNothing(b)
    ensures Verdict(At(p), [b] + rest, strtod) == Some(InvalidCharacter(b))
  {
    hide FeedCore;
    FeedOne(At(p), b, rest, strtod);
    FailedStays(LexInput(At(p), b, strtod).0, rest, strtod);
  }

  /** A text that does not start with white space starts with a token, or with what is wrong. */
  lemma FirstLexeme(p: Parser, text: Bytes, strtod: Strtod) returns (s: Bytes, t: Option<Token>, rest: Bytes)
    requires Valid(p) && !p.done && NulFree(text) && text != [] && text[0] !in {' ', '\t', '\n', '\r'}
    ensures Lexed(p, text, s, t, rest, strtod)
  {
    hide NumberLexeme;
    hide Input;
    hide Verdict;
    var b := text[0];
    assert text == [b] + text[1..];
    if Punctuation(b).Some? {
      s, t, rest := [b], Some(Punctuation(b).value), text[1..];
      LexedPunctuation(p, b, rest, strtod);
    } else if b == '"' {
      s, t, rest := LexedString(p, text, strtod);
    } else if IsLower(b) || StartsNumber(b) {
      s, t, rest := LexedFirstRun(p, if IsLower(b) then LexKeyword else LexNumber, text, strtod);
    } else {
      s, t, rest := [], None, [];
      LexedNothing(p, b, text[1..], strtod);
    }
  }

  lemma VerdictSpace(p: Parser, b: Byte, rest: Bytes, strtod: Strtod)
    requires Valid(p) && b in {' ', '\t', '\n', '\r'}
    ensures Verdict(At(p), [b] + rest, strtod) == Verdict(At(p), rest, strtod)
  {
    hide FeedCore;
    ReadsSpace(b, strtod);
    ReadsSpacesHere(p, [b], rest, strtod);
  }

  /** A text read without an error is white space and tokens, which the automaton accepts. */
  lemma {:induction false} TokensIn(p: Parser, text: Bytes, strtod: Strtod) returns (tokens: seq<Token>)
    requires Valid(p) && !p.done && p.setup.trailer && NulFree(text) && Verdict(At(p), text, strtod).None?
    ensures Written(text, tokens, strtod) && Accepting(Run(p, tokens))
    decreases |text|
  {
    hide FeedCore;
    hide Spells;
    hide Input;
    if text == [] {
      tokens := [];
      AtEnd(p, strtod);
    } else if text[0] in {' ', '\t', '\n', '\r'} {
      assert text == [text[0]] + text[1..];
      VerdictSpace(p, text[0], text[1..], strtod);
      tokens := TokensIn(p, text[1..], strtod);
      PrependSpace(text[0], text[1..], tokens, strtod);
    } else {
      var s, t, rest := FirstLexeme(p, text, strtod);
      assert forall i :: 0 <= i < |rest| ==> rest[i] == text[|s| + i];
      Taken(p, t.value, rest, strtod);
      tokens := TokensIn(Input(p, t.value), rest, strtod);
      PrependToken(s, t.value, rest, tokens, strtod);
      RunStep(p, t.value, tokens);
      tokens := [t.value] + tokens;
    }
  }

  /** The end of the text, between two tokens. */
  lemma AtEnd(p: Parser, strtod: Strtod)
    requires Valid(p) && p.error.None?
    ensures Verdict(At(p), [], strtod)
         == if p.state == End then None else if p.state == Start then Some(EmptyInput) else Some(UnexpectedEnd)
  {
  }

  /** A token that fails is the error of the whole. */
  lemma Taken(p: Parser, t: Token, rest: Bytes, strtod: Strtod)
    requires Valid(p) && !p.done && p.setup.trailer && Valid(Input(p, t))
    ensures Input(p, t).error.Some? ==> Verdict(At(Input(p, t)), rest, strtod) == Input(p, t).error
    ensures Input(p, t).error.None? ==> !Input(p, t).done
    ensures Input(p, t).setup == p.setup
  {
    hide Input;
    SetupStays(p, t);
    if Input(p, t).error.Some? { FailedStays(At(Input(p, t)), rest, strtod); }
  }

  // ----- the theorem

  lemma ParsedIfEnds(text: Bytes, strtod: Strtod)
    ensures match Verdict(At(Init(true)), CString(text), strtod)
            case None => FromString(text, strtod).Parsed?
            case Some(kind) => FromString(text, strtod).Failed? && FromString(text, strtod).kind == kind
    ensures FromString(text, strtod).Parsed? ==>
              var c := FeedCore(At(Init(true)), CString(text), strtod);
              c.lex == LexStart ==> c.parser.stack != [] && FromString(text, strtod) == Parsed(c.parser.stack[0].node)
  {
    FeedForgetsPositions(Created(true), CString(text), strtod);
  }

  lemma TextIsParsed(j: Json, text: Bytes, strtod: Strtod)
    requires IsText(j, CString(text), strtod)
    ensures FromString(text, strtod) == Parsed(Eval(j))
  {
    hide FromString;
    hide FeedCore;
    hide Written;
    hide TokensOf;
    hide Run;
    ParsedIfEnds(text, strtod);
    AcceptsExactlyDocuments(TokensOf(j));
    assert IsDocument(j, TokensOf(j));
    WrittenReads(Init(true), CString(text), TokensOf(j), strtod);
  }

  lemma ParsedIsText(text: Bytes, strtod: Strtod) returns (j: Json)
    requires FromString(text, strtod).Parsed?
    ensures IsText(j, CString(text), strtod)
  {
    hide FromString;
    hide Verdict;
    hide Written;
    hide Run;
    ParsedIfEnds(text, strtod);
    var tokens := TokensIn(Init(true), CString(text), strtod);
    AcceptsExactlyDocuments(tokens);
    j :| IsDocument(j, tokens);
  }

  /** json_from_string accepts exactly the texts, up to a NUL, of arrays and objects nested at
      most 1000 deep, and gives back the value of the one that is written there. */
  lemma AcceptsExactlyTexts(text: Bytes, strtod: Strtod)
    ensures FromString(text, strtod).Parsed? <==> exists j :: IsText(j, CString(text), strtod)
    ensures forall j :: IsText(j, CString(text), strtod) ==> FromString(text, strtod) == Parsed(Eval(j))
  {
    hide FromString;
    hide IsText;
    forall j | IsText(j, CString(text), strtod)
      ensures FromString(text, strtod) == Parsed(Eval(j))
    {
      TextIsParsed(j, text, strtod);
    }
    if FromString(text, strtod).Parsed? {
      var j := ParsedIsText(text, strtod);
    }
  }

  /** A text is the text of one value only. */
  lemma OneValue(a: Json, b: Json, text: Bytes, strtod: Strtod)
    requires NulFree(text) && IsText(a, text, strtod) && IsText(b, text, strtod)
    ensures Eval(a) == Eval(b)
  {
    AcceptsExactlyTexts(text, strtod);
  }
}
