/** Reading back what the writer wrote. */
module JsonRoundTrip {
  import opened Bytes
  import opened JsonValue
  import opened JsonParser
  import opened JsonLexer
  import opened JsonPrinter
  import opened JsonGrammar
  import JsonCodec
  import JsonNumber
  import JsonNumberExact
  import JsonStringExact

  // ----- the tree as it is printed

  /** The tree with the members of every object in the order in which they are printed. */
  function Arranged(j: Json, f: Flags): Json
    decreases j, 1
  {
    match j
    case JArray(es) => JArray(ArrangedElems(j, 0, f))
    case JObject(ms) => JObject(ArrangedMembers(j, Order(ms, f), 0, f))
    case _ => j
  }

  function ArrangedElems(j: Json, i: nat, f: Flags): (r: seq<Json>)
    requires j.JArray? && i <= |j.elems|
    ensures |r| == |j.elems| - i
    decreases j, 0, |j.elems| - i
  {
    if i == |j.elems| then [] else [Arranged(j.elems[i], f)] + ArrangedElems(j, i + 1, f)
  }

  function ArrangedMembers(j: Json, order: seq<Member>, i: nat, f: Flags): (r: seq<Member>)
    requires j.JObject? && i <= |order| && forall m :: m in order ==> m in j.members
    ensures |r| == |order| - i
    decreases j, 0, |order| - i + 1
  {
    if i == |order| then []
    else [ArrangedMember(j, order[i], f)] + ArrangedMembers(j, order, i + 1, f)
  }

  function ArrangedMember(j: Json, m: Member, f: Flags): Member
    requires j.JObject? && m in j.members
    decreases j, 0, 0
  {
    Member(m.name, Arranged(m.value, f))
  }

  // ----- one lexeme at a time

  /** The reader between two lexemes. */
  function At(p: Parser): Core { Core(LexStart, [], p) }

  lemma {:induction false} RunConcat(p: Parser, a: seq<Token>, b: seq<Token>)
    requires Valid(p)
    ensures Run(p, a + b) == Run(Run(p, a), b)
    decreases |a|
  {
    hide Input;
    if a == [] {
      assert a + b == b;
    } else if !p.done {
      assert a == [a[0]] + a[1..] && a + b == [a[0]] + (a[1..] + b);
      RunStep(p, a[0], a[1..]);
      RunStep(p, a[0], a[1..] + b);
      RunConcat(Input(p, a[0]), a[1..], b);
    }
  }

  /** In front of `rest`, the parser `p` reads `text` as `tokens`. */
  ghost predicate ReadsAt(p: Parser, text: Bytes, tokens: seq<Token>, rest: Bytes, strtod: Strtod)
    requires Valid(p)
  {
    FeedCore(At(p), text + rest, strtod) == FeedCore(At(Run(p, tokens)), rest, strtod)
  }

  /** `text` is read as `tokens`, whatever follows. */
  ghost predicate Reads(text: Bytes, tokens: seq<Token>, strtod: Strtod) {
    forall p, rest :: Valid(p) ==> ReadsAt(p, text, tokens, rest, strtod)
  }

  /** What may follow a number or a keyword. */
  ghost predicate Delimits(rest: Bytes) {
    rest != [] && !IsAlpha(rest[0]) && !IsNumberByte(rest[0])
  }

  /** `text` is read as `tokens` if a delimiter follows. */
  ghost predicate ReadsBefore(text: Bytes, tokens: seq<Token>, strtod: Strtod) {
    forall p, rest :: Valid(p) && Delimits(rest) ==> ReadsAt(p, text, tokens, rest, strtod)
  }

  lemma ReadsAtConcat(p: Parser, a: Bytes, ta: seq<Token>, b: Bytes, tb: seq<Token>, rest: Bytes, strtod: Strtod)
    requires Valid(p) && ReadsAt(p, a, ta, b + rest, strtod) && ReadsAt(Run(p, ta), b, tb, rest, strtod)
    ensures ReadsAt(p, a + b, ta + tb, rest, strtod)
  {
    assert (a + b) + rest == a + (b + rest);
    RunConcat(p, ta, tb);
  }

  lemma ReadsConcat(a: Bytes, ta: seq<Token>, b: Bytes, tb: seq<Token>, strtod: Strtod)
    requires Reads(a, ta, strtod) && Reads(b, tb, strtod)
    ensures Reads(a + b, ta + tb, strtod)
  {
    forall p, rest | Valid(p)
      ensures ReadsAt(p, a + b, ta + tb, rest, strtod)
    {
      ReadsAtConcat(p, a, ta, b, tb, rest, strtod);
    }
  }

  lemma ReadsBeforeConcat(a: Bytes, ta: seq<Token>, b: Bytes, tb: seq<Token>, strtod: Strtod)
    requires ReadsBefore(a, ta, strtod) && Reads(b, tb, strtod) && Delimits(b)
    ensures Reads(a + b, ta + tb, strtod)
  {
    forall p, rest | Valid(p)
      ensures ReadsAt(p, a + b, ta + tb, rest, strtod)
    {
      assert Delimits(b + rest);
      ReadsAtConcat(p, a, ta, b, tb, rest, strtod);
    }
  }

  lemma ReadsThenBefore(a: Bytes, ta: seq<Token>, b: Bytes, tb: seq<Token>, strtod: Strtod)
    requires Reads(a, ta, strtod) && ReadsBefore(b, tb, strtod)
    ensures ReadsBefore(a + b, ta + tb, strtod)
  {
    forall p, rest | Valid(p) && Delimits(rest)
      ensures ReadsAt(p, a + b, ta + tb, rest, strtod)
    {
      ReadsAtConcat(p, a, ta, b, tb, rest, strtod);
    }
  }

  lemma ReadsHere(p: Parser, text: Bytes, tokens: seq<Token>, strtod: Strtod)
    requires Valid(p) && Reads(text, tokens, strtod)
    ensures FeedCore(At(p), text, strtod) == At(Run(p, tokens))
  {
    assert ReadsAt(p, text, tokens, [], strtod);
    assert text + [] == text;
  }

  lemma ReadsNothing(strtod: Strtod)
    ensures Reads([], [], strtod)
  {
    forall p, rest | Valid(p)
      ensures ReadsAt(p, [], [], rest, strtod)
    {
      assert [] + rest == rest;
    }
  }

  lemma FeedOne(c: Core, b: Byte, rest: Bytes, strtod: Strtod)
    requires CoreValid(c) && !c.parser.done
    ensures var (d, consumed) := LexInput(c, b, strtod);
            && (consumed ==> FeedCore(c, [b] + rest, strtod) == FeedCore(d, rest, strtod))
            && (!consumed && d.parser.done ==> FeedCore(c, [b] + rest, strtod) == d)
            && (!consumed && !d.parser.done ==> FeedCore(c, [b] + rest, strtod) == FeedCore(d, [b] + rest, strtod))
  {
    assert ([b] + rest)[1..] == rest;
  }

  lemma PunctuationByte(p: Parser, b: Byte, strtod: Strtod)
    requires Valid(p) && Punctuation(b).Some?
    ensures Valid(Input(p, Punctuation(b).value))
    ensures LexInput(At(p), b, strtod) == (At(Input(p, Punctuation(b).value)), true)
  {
    assert " \t\n\r" == [' ', '\t', '\n', '\r'];
    InputValid(p, Punctuation(b).value);
  }

  lemma ReadsPunctuation(b: Byte, strtod: Strtod)
    requires Punctuation(b).Some?
    ensures Reads([b], [Punctuation(b).value], strtod)
  {
    var t := Punctuation(b).value;
    forall p, rest | Valid(p)
      ensures ReadsAt(p, [b], [t], rest, strtod)
    {
      RunOne(p, t);
      if !p.done {
        PunctuationByte(p, b, strtod);
        FeedOne(At(p), b, rest, strtod);
      }
    }
  }

  lemma RunOne(p: Parser, t: Token)
    requires Valid(p)
    ensures p.done ==> Run(p, [t]) == p
    ensures !p.done ==> Run(p, [t]) == Input(p, t)
  {
    if !p.done {
      assert [t] + [] == [t];
      RunStep(p, t, []);
    }
  }

  lemma ReadsSpace(b: Byte, strtod: Strtod)
    requires IsSpace(b)
    ensures Reads([b], [], strtod)
  {
    forall p, rest | Valid(p)
      ensures ReadsAt(p, [b], [], rest, strtod)
    {
      if !p.done { FeedOne(At(p), b, rest, strtod); }
    }
  }

  lemma {:induction false} ReadsSpaces(s: Bytes, strtod: Strtod)
    requires forall i :: 0 <= i < |s| ==> IsSpace(s[i])
    ensures Reads(s, [], strtod)
  {
    hide Reads;
    if s == [] {
      ReadsNothing(strtod);
    } else {
      ReadsSpace(s[0], strtod);
      ReadsSpaces(s[1..], strtod);
      ReadsConcat([s[0]], [], s[1..], [], strtod);
      var none: seq<Token> := [];
      assert s == [s[0]] + s[1..] && none + none == none;
    }
  }

  // ----- strings

  lemma FeedEscapeByte(u: Bytes, p: Parser, c: Byte, rest: Bytes, strtod: Strtod)
    requires Valid(p) && !p.done
    ensures FeedCore(Core(LexString, u, p), JsonCodec.EscapeByte(c) + rest, strtod)
         == FeedCore(Core(LexString, u + JsonCodec.EscapeByte(c), p), rest, strtod)
  {
    var e := JsonCodec.EscapeByte(c);
    if |e| == 1 {
      FeedOne(Core(LexString, u, p), c, rest, strtod);
      assert e == [c];
    } else if |e| == 2 {
      assert e == ['\\', e[1]];
      FeedBackslash(u, p, e[1], rest, strtod);
    } else {
      HexIsPlain(c as int / 16);
      HexIsPlain(c as int % 16);
      FeedControl(u, p, e[4], e[5], rest, strtod);
      assert e == ['\\', 'u', '0', '0', e[4], e[5]];
    }
  }

  lemma HexIsPlain(d: nat)
    requires d < 16
    ensures JsonStringExact.IsPlain(JsonCodec.HEX_DIGITS[d])
  {
    JsonCodec.HexDigitsInverse(d);
  }

  lemma FeedPlainByte(u: Bytes, p: Parser, b: Byte, rest: Bytes, strtod: Strtod)
    requires Valid(p) && !p.done && JsonStringExact.IsPlain(b)
    ensures FeedCore(Core(LexString, u, p), [b] + rest, strtod) == FeedCore(Core(LexString, u + [b], p), rest, strtod)
  {
    hide FeedCore;
    FeedOne(Core(LexString, u, p), b, rest, strtod);
  }

  lemma {:induction false} FeedPlain(u: Bytes, p: Parser, s: Bytes, rest: Bytes, strtod: Strtod)
    requires Valid(p) && !p.done && forall i :: 0 <= i < |s| ==> JsonStringExact.IsPlain(s[i])
    ensures FeedCore(Core(LexString, u, p), s + rest, strtod) == FeedCore(Core(LexString, u + s, p), rest, strtod)
    decreases |s|
  {
    hide FeedCore;
    hide Valid;
    if s == [] {
      assert s + rest == rest && u + s == u;
    } else {
      assert s + rest == [s[0]] + (s[1..] + rest);
      FeedPlainByte(u, p, s[0], s[1..] + rest, strtod);
      FeedPlain(u + [s[0]], p, s[1..], rest, strtod);
      assert u + [s[0]] + s[1..] == u + s;
    }
  }

  lemma FeedBackslash(u: Bytes, p: Parser, c: Byte, rest: Bytes, strtod: Strtod)
    requires Valid(p) && !p.done
    ensures FeedCore(Core(LexString, u, p), ['\\', c] + rest, strtod) == FeedCore(Core(LexString, u + ['\\', c], p), rest, strtod)
  {
    assert ['\\', c] + rest == ['\\'] + ([c] + rest);
    FeedOne(Core(LexString, u, p), '\\', [c] + rest, strtod);
    FeedOne(Core(LexEscape, u + ['\\'], p), c, rest, strtod);
    assert u + ['\\'] + [c] == u + ['\\', c];
  }

  lemma FeedControl(u: Bytes, p: Parser, h: Byte, l: Byte, rest: Bytes, strtod: Strtod)
    requires Valid(p) && !p.done && JsonStringExact.IsPlain(h) && JsonStringExact.IsPlain(l)
    ensures FeedCore(Core(LexString, u, p), ['\\', 'u', '0', '0', h, l] + rest, strtod)
         == FeedCore(Core(LexString, u + ['\\', 'u', '0', '0', h, l], p), rest, strtod)
  {
    var d := ['0', '0', h, l];
    assert ['\\', 'u', '0', '0', h, l] + rest == ['\\', 'u'] + (d + rest);
    FeedBackslash(u, p, 'u', d + rest, strtod);
    FeedPlain(u + ['\\', 'u'], p, d, rest, strtod);
    assert u + ['\\', 'u'] + d == u + ['\\', 'u', '0', '0', h, l];
  }

  lemma {:induction false} FeedEscape(u: Bytes, p: Parser, s: Bytes, rest: Bytes, strtod: Strtod)
    requires Valid(p) && !p.done
    ensures FeedCore(Core(LexString, u, p), JsonCodec.Escape(s) + rest, strtod)
         == FeedCore(Core(LexString, u + JsonCodec.Escape(s), p), rest, strtod)
    decreases |s|
  {
    hide FeedCore;
    hide Valid;
    hide JsonCodec.EscapeByte;
    if s == [] {
      assert u + [] == u && [] + rest == rest;
    } else {
      var e, more := JsonCodec.EscapeByte(s[0]), JsonCodec.Escape(s[1..]);
      assert (e + more) + rest == e + (more + rest);
      FeedEscapeByte(u, p, s[0], more + rest, strtod);
      FeedEscape(u + e, p, s[1..], rest, strtod);
      assert (u + e) + more == u + (e + more);
    }
  }

  lemma EscapeByteIsText(c: Byte)
    ensures NulFree(JsonCodec.EscapeByte(c))
    ensures '\\' !in JsonCodec.EscapeByte(c) ==> '"' !in JsonCodec.EscapeByte(c)
  {
    var e := JsonCodec.EscapeByte(c);
    if |e| == 6 {
      HexIsPlain(c as int / 16);
      HexIsPlain(c as int % 16);
    }
    if |e| > 1 { assert e[0] == '\\'; }
  }

  lemma {:induction false} EscapeIsText(s: Bytes)
    ensures NulFree(JsonCodec.Escape(s))
    ensures '\\' !in JsonCodec.Escape(s) ==> '"' !in JsonCodec.Escape(s)
  {
    if s != [] {
      EscapeByteIsText(s[0]);
      EscapeIsText(s[1..]);
    }
  }

  lemma EscapedLexeme(s: Bytes)
    requires NulFree(s)
    ensures StringLexeme(CString(JsonCodec.Escape(s))) == Lexeme(StringToken(s))
  {
    EscapeIsText(s);
    JsonCodec.UnescapeInvertsEscape(s);
    if '\\' !in JsonCodec.Escape(s) {
      JsonCodec.UnescapePlain(JsonCodec.Escape(s));
    }
  }

  lemma FeedClosingQuote(p: Parser, raw: Bytes, t: Token, rest: Bytes, strtod: Strtod)
    requires Valid(p) && !p.done && StringLexeme(CString(raw)) == Lexeme(t)
    ensures FeedCore(Core(LexString, raw, p), ['"'] + rest, strtod) == FeedCore(At(Run(p, [t])), rest, strtod)
  {
    FeedOne(Core(LexString, raw, p), '"', rest, strtod);
    RunOne(p, t);
  }

  lemma StartByte(p: Parser, b: Byte, strtod: Strtod)
    requires Valid(p)
    ensures b == '"' ==> LexInput(At(p), b, strtod) == (Core(LexString, [], p), true)
    ensures b == '-' || JsonNumber.IsDigit(b) ==> LexInput(At(p), b, strtod) == (Core(LexNumber, [b], p), true)
    ensures IsLower(b) ==> LexInput(At(p), b, strtod) == (Core(LexKeyword, [b], p), true)
  {
    assert " \t\n\r" == [' ', '\t', '\n', '\r'];
  }

  /** The first byte of a lexeme of several bytes. */
  lemma FeedFirst(p: Parser, b: Byte, rest: Bytes, strtod: Strtod)
    requires Valid(p) && !p.done
    ensures b == '"' ==> FeedCore(At(p), [b] + rest, strtod) == FeedCore(Core(LexString, [], p), rest, strtod)
    ensures b == '-' || JsonNumber.IsDigit(b) ==>
              FeedCore(At(p), [b] + rest, strtod) == FeedCore(Core(LexNumber, [b], p), rest, strtod)
    ensures IsLower(b) ==> FeedCore(At(p), [b] + rest, strtod) == FeedCore(Core(LexKeyword, [b], p), rest, strtod)
  {
    StartByte(p, b, strtod);
    FeedOne(At(p), b, rest, strtod);
  }

  lemma FeedString(p: Parser, s: Bytes, rest: Bytes, strtod: Strtod)
    requires NulFree(s) && Valid(p) && !p.done
    ensures FeedCore(At(p), Quoted(s) + rest, strtod) == FeedCore(At(Run(p, [StringToken(s)])), rest, strtod)
  {
    hide LexInput;
    var e := JsonCodec.Escape(s);
    var tail := ['"'] + rest;
    assert Quoted(s) + rest == ['"'] + (e + tail);
    FeedFirst(p, '"', e + tail, strtod);
    FeedEscape([], p, s, tail, strtod);
    assert [] + e == e;
    EscapedLexeme(s);
    FeedClosingQuote(p, e, StringToken(s), rest, strtod);
  }

  lemma ReadsString(s: Bytes, strtod: Strtod)
    requires NulFree(s)
    ensures Reads(Quoted(s), [StringToken(s)], strtod)
  {
    forall p, rest | Valid(p)
      ensures ReadsAt(p, Quoted(s), [StringToken(s)], rest, strtod)
    {
      if p.done { RunOne(p, StringToken(s)); } else { FeedString(p, s, rest, strtod); }
    }
  }

  // ----- numbers and keywords

  /** The bytes of a number or of a keyword go to the buffer. */
  ghost predicate IsRun(lex: LexState, s: Bytes) {
    match lex
    case LexNumber => forall i :: 0 <= i < |s| ==> IsNumberByte(s[i])
    case LexKeyword => forall i :: 0 <= i < |s| ==> IsAlpha(s[i])
    case _ => false
  }

  lemma FeedRunByte(c: Core, b: Byte, rest: Bytes, strtod: Strtod)
    requires CoreValid(c) && !c.parser.done && IsRun(c.lex, [b])
    ensures FeedCore(c, [b] + rest, strtod) == FeedCore(c.(buffer := c.buffer + [b]), rest, strtod)
  {
    assert [b][0] == b;
    FeedOne(c, b, rest, strtod);
  }

  lemma {:induction false} FeedRun(c: Core, s: Bytes, rest: Bytes, strtod: Strtod)
    requires CoreValid(c) && !c.parser.done && IsRun(c.lex, s)
    ensures FeedCore(c, s + rest, strtod) == FeedCore(c.(buffer := c.buffer + s), rest, strtod)
    decreases |s|
  {
    hide LexInput;
    hide FeedCore;
    hide Valid;
    if s == [] {
      assert s + rest == rest && c.buffer + s == c.buffer;
    } else {
      assert s + rest == [s[0]] + (s[1..] + rest);
      FeedRunByte(c, s[0], s[1..] + rest, strtod);
      FeedRun(c.(buffer := c.buffer + [s[0]]), s[1..], rest, strtod);
      assert c.buffer + [s[0]] + s[1..] == c.buffer + s;
    }
  }

  /** A complete buffer, ended by a delimiter, is delivered. */
  lemma FeedDelimiter(c: Core, t: Token, rest: Bytes, strtod: Strtod)
    requires Valid(c.parser) && !c.parser.done && Delimits(rest)
    requires || (c.lex == LexNumber && NumberLexeme(CString(c.buffer), strtod) == Lexeme(t))
             || (c.lex == LexKeyword && KeywordLexeme(CString(c.buffer)) == Lexeme(t))
    ensures FeedCore(c, rest, strtod) == FeedCore(At(Run(c.parser, [t])), rest, strtod)
  {
    FeedOne(c, rest[0], rest[1..], strtod);
    assert rest == [rest[0]] + rest[1..];
    assert [t] + [] == [t];
    RunStep(c.parser, t, []);
    assert LexInput(c, rest[0], strtod) == (At(Input(c.parser, t)), false);
  }

  lemma FeedText(p: Parser, lex: LexState, s: Bytes, rest: Bytes, strtod: Strtod)
    requires Valid(p) && !p.done && s != [] && IsRun(lex, s)
    requires lex == LexNumber ==> s[0] == '-' || JsonNumber.IsDigit(s[0])
    requires lex == LexKeyword ==> IsLower(s[0])
    ensures FeedCore(At(p), s + rest, strtod) == FeedCore(Core(lex, s, p), rest, strtod)
  {
    hide LexInput;
    hide FeedCore;
    assert s + rest == [s[0]] + (s[1..] + rest);
    FeedFirst(p, s[0], s[1..] + rest, strtod);
    assert IsRun(lex, s[1..]);
    FeedRun(Core(lex, [s[0]], p), s[1..], rest, strtod);
    assert [s[0]] + s[1..] == s;
  }

  predicate IsKeyword(word: Bytes, t: Token) {
    (word == "null" && t == NullToken) || (word == "true" && t == TrueToken) || (word == "false" && t == FalseToken)
  }

  lemma FeedKeyword(p: Parser, word: Bytes, t: Token, rest: Bytes, strtod: Strtod)
    requires IsKeyword(word, t) && Valid(p) && !p.done && Delimits(rest)
    ensures FeedCore(At(p), word + rest, strtod) == FeedCore(At(Run(p, [t])), rest, strtod)
  {
    FeedText(p, LexKeyword, word, rest, strtod);
    FeedDelimiter(Core(LexKeyword, word, p), t, rest, strtod);
  }

  lemma ReadsKeyword(word: Bytes, t: Token, strtod: Strtod)
    requires IsKeyword(word, t)
    ensures ReadsBefore(word, [t], strtod)
  {
    forall p, rest | Valid(p) && Delimits(rest)
      ensures ReadsAt(p, word, [t], rest, strtod)
    {
      if p.done { RunOne(p, t); } else { FeedKeyword(p, word, t, rest, strtod); }
    }
  }

  lemma DecimalText(n: int)
    ensures var s := JsonNumberExact.SignedDecimal(n);
            && s != [] && (s[0] == '-' || JsonNumber.IsDigit(s[0])) && NulFree(s)
            && forall i :: 0 <= i < |s| ==> IsNumberByte(s[i])
  {
    JsonNumberExact.DecimalDigits(if n < 0 then -n else n);
    var d := JsonNumberExact.Decimal(if n < 0 then -n else n);
    var s := JsonNumberExact.SignedDecimal(n);
    forall i | 0 <= i < |s|
      ensures IsNumberByte(s[i]) && s[i] as int != 0
    {
      if n < 0 && i == 0 {
        assert s[0] == '-' && '-' in ".0123456789eE-+";
      } else {
        assert s[i] == d[if n < 0 then i - 1 else i];
        DigitIsNumberByte(s[i]);
      }
    }
  }

  lemma DigitIsNumberByte(b: Byte)
    requires JsonNumber.IsDigit(b)
    ensures IsNumberByte(b) && b as int != 0
  {
    var t := ".0123456789eE-+";
    assert t[1 + (b as int - '0' as int)] == b;
  }

  lemma FeedInteger(p: Parser, n: int, rest: Bytes, strtod: Strtod)
    requires -0x8000_0000_0000_0000 <= n < 0x8000_0000_0000_0000
    requires Valid(p) && !p.done && Delimits(rest)
    ensures FeedCore(At(p), JsonNumberExact.SignedDecimal(n) + rest, strtod)
         == FeedCore(At(Run(p, [IntegerToken(n)])), rest, strtod)
  {
    hide JsonNumber.ScanNumber;
    hide JsonNumberExact.SignedDecimal;
    hide FeedCore;
    var s := JsonNumberExact.SignedDecimal(n);
    DecimalText(n);
    JsonNumberExact.ScanDecimal(n);
    FeedNumber(p, s, IntegerToken(n), rest, strtod);
  }

  lemma FeedNumber(p: Parser, s: Bytes, t: Token, rest: Bytes, strtod: Strtod)
    requires Valid(p) && !p.done && Delimits(rest)
    requires s != [] && (s[0] == '-' || JsonNumber.IsDigit(s[0])) && forall i :: 0 <= i < |s| ==> IsNumberByte(s[i])
    requires NumberLexeme(CString(s), strtod) == Lexeme(t)
    ensures FeedCore(At(p), s + rest, strtod) == FeedCore(At(Run(p, [t])), rest, strtod)
  {
    FeedText(p, LexNumber, s, rest, strtod);
    FeedDelimiter(Core(LexNumber, s, p), t, rest, strtod);
  }

  lemma ReadsInteger(n: int, strtod: Strtod)
    requires -0x8000_0000_0000_0000 <= n < 0x8000_0000_0000_0000
    ensures ReadsBefore(JsonNumberExact.SignedDecimal(n), [IntegerToken(n)], strtod)
  {
    forall p, rest | Valid(p) && Delimits(rest)
      ensures ReadsAt(p, JsonNumberExact.SignedDecimal(n), [IntegerToken(n)], rest, strtod)
    {
      if p.done { RunOne(p, IntegerToken(n)); } else { FeedInteger(p, n, rest, strtod); }
    }
  }

  lemma NumberBytes(l: JsonNumberExact.Literal)
    requires JsonNumberExact.WellFormed(l)
    ensures var s := JsonNumberExact.Render(l);
            && s != [] && (s[0] == '-' || JsonNumber.IsDigit(s[0])) && NulFree(s)
            && forall i :: 0 <= i < |s| ==> IsNumberByte(s[i])
  {
    DigitsAreNumberBytes(l.whole);
    if l.fraction.Some? { DigitsAreNumberBytes(l.fraction.value); }
    if l.exponent.Some? { DigitsAreNumberBytes(l.exponent.value.digits); }
    SignBytes();
    hide IsNumberByte;
    var f := JsonNumberExact.RenderFraction(l.fraction);
    var e := JsonNumberExact.RenderExponent(l.exponent);
    assert NulFree(f) && forall i :: 0 <= i < |f| ==> IsNumberByte(f[i]);
    assert NulFree(e) && forall i :: 0 <= i < |e| ==> IsNumberByte(e[i]);
  }

  lemma SignBytes()
    ensures IsNumberByte('.') && IsNumberByte('e') && IsNumberByte('E') && IsNumberByte('-') && IsNumberByte('+')
  {
    assert ".0123456789eE-+" == ['.'] + "0123456789" + ['e', 'E', '-', '+'];
  }

  lemma DigitsAreNumberBytes(s: Bytes)
    requires JsonNumber.AllDigits(s)
    ensures NulFree(s) && forall i :: 0 <= i < |s| ==> IsNumberByte(s[i])
  {
    forall i | 0 <= i < |s|
      ensures IsNumberByte(s[i]) && s[i] as int != 0
    {
      DigitIsNumberByte(s[i]);
    }
  }

  /** The reals whose text is read back as they are: it is a literal, does not stand for an integer of
      64 bits, and strtod gives the very double (JsonText.NumberIff). */
  function ReadsBack(fmt: FormatDouble, strtod: Strtod): Double -> bool {
    (d: Double) => NumberLexeme(fmt(d), strtod) == Lexeme(RealToken(d))
  }

  lemma RealText(d: Double, fmt: FormatDouble, strtod: Strtod)
    requires ReadsBack(fmt, strtod)(d)
    ensures var s := fmt(d);
            && s != [] && (s[0] == '-' || JsonNumber.IsDigit(s[0])) && NulFree(s)
            && (forall i :: 0 <= i < |s| ==> IsNumberByte(s[i])) && NumberLexeme(s, strtod) == Lexeme(RealToken(d))
  {
    hide JsonNumber.ScanNumber;
    var l := JsonNumberExact.LiteralOf(fmt(d));
    NumberBytes(l);
  }

  lemma ReadsReal(d: Double, fmt: FormatDouble, strtod: Strtod)
    requires ReadsBack(fmt, strtod)(d)
    ensures ReadsBefore(fmt(d), [RealToken(d)], strtod)
  {
    hide NumberLexeme;
    RealText(d, fmt, strtod);
    forall p, rest | Valid(p) && Delimits(rest)
      ensures ReadsAt(p, fmt(d), [RealToken(d)], rest, strtod)
    {
      if p.done { RunOne(p, RealToken(d)); } else { FeedNumber(p, fmt(d), RealToken(d), rest, strtod); }
    }
  }

  // ----- containers

  lemma ReadsIndent(f: Flags, depth: nat, strtod: Strtod)
    ensures Reads(Indent(f, depth), [], strtod)
  {
    hide Reads;
    if f.pretty {
      var s := Indent(f, depth);
      assert forall i :: 0 <= i < |s| ==> s[i] == '\n' || s[i] == ' ';
      assert " \t\n\r" == [' ', '\t', '\n', '\r'];
      ReadsSpaces(s, strtod);
    } else {
      ReadsNothing(strtod);
    }
  }

  lemma ReadsSeparator(i: nat, f: Flags, depth: nat, strtod: Strtod)
    ensures Reads(Separator(i, f, depth), if i > 0 then [ValueSeparator] else [], strtod)
  {
    hide Reads;
    if i > 0 {
      ReadsPunctuation(',', strtod);
      ReadsIndent(f, depth, strtod);
      ReadsConcat([','], [ValueSeparator], Indent(f, depth), [], strtod);
      assert [ValueSeparator] + [] == [ValueSeparator];
    } else {
      ReadsNothing(strtod);
    }
  }

  /** An item behind its separator, and what follows it. */
  lemma ReadsItem(sep: Bytes, tsep: seq<Token>, item: Bytes, titem: seq<Token>, tail: Bytes, ttail: seq<Token>, strtod: Strtod)
    requires Reads(sep, tsep, strtod) && ReadsBefore(item, titem, strtod) && Reads(tail, ttail, strtod) && Delimits(tail)
    ensures Reads(sep + item + tail, tsep + titem + ttail, strtod)
  {
    hide Reads;
    hide ReadsBefore;
    ReadsBeforeConcat(item, titem, tail, ttail, strtod);
    ReadsConcat(sep, tsep, item + tail, titem + ttail, strtod);
    assert sep + item + tail == sep + (item + tail) && tsep + titem + ttail == tsep + (titem + ttail);
  }

  /** A bracket, white space, and what is inside up to the closing bracket. */
  lemma ReadsBracketed(open: Byte, space: Bytes, body: Bytes, tbody: seq<Token>, strtod: Strtod)
    requires open in {'[', '{'} && Reads(space, [], strtod) && Reads(body, tbody, strtod)
    ensures Reads([open] + space + body, [Punctuation(open).value] + tbody, strtod)
  {
    hide Reads;
    ReadsPunctuation(open, strtod);
    ReadsConcat(space, [], body, tbody, strtod);
    ReadsConcat([open], [Punctuation(open).value], space + body, [] + tbody, strtod);
    assert [open] + space + body == [open] + (space + body) && [] + tbody == tbody;
  }

  lemma ReadsIsReadsBefore(text: Bytes, tokens: seq<Token>, strtod: Strtod)
    requires Reads(text, tokens, strtod)
    ensures ReadsBefore(text, tokens, strtod)
  {
  }

  /** The text of a tree is read as the tokens of the arranged tree. */
  lemma {:induction false} ReadsPrinted(j: Json, f: Flags, depth: nat, fmt: FormatDouble, strtod: Strtod)
    requires Printable(j, ReadsBack(fmt, strtod))
    ensures ReadsBefore(Print(j, f, depth, fmt), TokensOf(Arranged(j, f)), strtod)
    ensures IsContainer(j) ==> Reads(Print(j, f, depth, fmt), TokensOf(Arranged(j, f)), strtod)
    decreases j, 3
  {
    hide Reads;
    hide ReadsBefore;
    match j {
      case JNull => ReadsKeyword("null", NullToken, strtod);
      case JFalse => ReadsKeyword("false", FalseToken, strtod);
      case JTrue => ReadsKeyword("true", TrueToken, strtod);
      case JInteger(n) => ReadsInteger(n, strtod);
      case JReal(d) => ReadsReal(d, fmt, strtod);
      case JString(s) =>
        ReadsString(s, strtod);
        ReadsIsReadsBefore(Quoted(s), [StringToken(s)], strtod);
      case JArray(_) =>
        ReadsArray(j, f, depth, fmt, strtod);
        ReadsIsReadsBefore(Print(j, f, depth, fmt), TokensOf(Arranged(j, f)), strtod);
      case JObject(_) =>
        ReadsObject(j, f, depth, fmt, strtod);
        ReadsIsReadsBefore(Print(j, f, depth, fmt), TokensOf(Arranged(j, f)), strtod);
    }
  }

  lemma {:induction false} ReadsArray(j: Json, f: Flags, depth: nat, fmt: FormatDouble, strtod: Strtod)
    requires Printable(j, ReadsBack(fmt, strtod)) && j.JArray?
    ensures Reads(Print(j, f, depth, fmt), TokensOf(Arranged(j, f)), strtod)
    decreases j, 2
  {
    hide Reads;
    hide Print;
    hide Arranged;
    ReadsElems(j, 0, f, depth + 1, fmt, strtod);
    ArrayText(j, f, depth, fmt);
    ReadsSquare(if j.elems == [] then [] else Indent(f, depth + 1), PrintElems(j, 0, f, depth + 1, fmt),
                ArrangedElems(j, 0, f), f, depth + 1, strtod);
  }

  lemma ArrayText(j: Json, f: Flags, depth: nat, fmt: FormatDouble)
    requires j.JArray?
    ensures var space := if j.elems == [] then [] else Indent(f, depth + 1);
            Print(j, f, depth, fmt) == ['['] + space + PrintElems(j, 0, f, depth + 1, fmt) + [']']
    ensures Arranged(j, f) == JArray(ArrangedElems(j, 0, f))
  {
  }

  lemma ReadsSquare(space: Bytes, more: Bytes, es: seq<Json>, f: Flags, depth: nat, strtod: Strtod)
    requires space == [] || space == Indent(f, depth)
    requires Reads(more + [']'], ElemsFrom(0, es) + [EndArray], strtod)
    ensures Reads(['['] + space + more + [']'], TokensOf(JArray(es)), strtod)
  {
    hide Reads;
    if space == [] { ReadsNothing(strtod); } else { ReadsIndent(f, depth, strtod); }
    ReadsBracketed('[', space, more + [']'], ElemsFrom(0, es) + [EndArray], strtod);
    ItemText(['['], space, more, [']']);
    ArrayTokens(es);
  }

  lemma ArrayTokens(es: seq<Json>)
    ensures TokensOf(JArray(es)) == [BeginArray] + (ElemsFrom(0, es) + [EndArray])
  {
  }

  /** The tokens of the elements from the `i`th on. */
  function ElemsFrom(i: nat, es: seq<Json>): seq<Token> {
    if i > 0 then ElemTail(es) else if es == [] then [] else TokensOf(es[0]) + ElemTail(es[1..])
  }

  lemma DelimitsElems(j: Json, i: nat, f: Flags, depth: nat, fmt: FormatDouble)
    requires j.JArray? && 0 < i <= |j.elems|
    ensures Delimits(PrintElems(j, i, f, depth, fmt) + [']'])
  {
    if i < |j.elems| { assert PrintElems(j, i, f, depth, fmt)[0] == ','; }
  }

  lemma ItemText(sep: Bytes, text: Bytes, more: Bytes, close: Bytes)
    ensures sep + text + more + close == sep + text + (more + close)
  {
  }

  lemma ItemTokens(sep: seq<Token>, item: seq<Token>, more: seq<Token>, close: seq<Token>)
    ensures sep + item + more + close == sep + item + (more + close)
    ensures [] + item + more + close == item + more + close
  {
    assert [] + item == item;
  }

  lemma ElemsFromStep(i: nat, e: Json, rest: seq<Json>)
    ensures ElemsFrom(i, [e] + rest) == (if i > 0 then [ValueSeparator] else []) + TokensOf(e) + ElemTail(rest)
    ensures ElemsFrom(i + 1, rest) == ElemTail(rest)
  {
    assert ([e] + rest)[1..] == rest;
    assert [] + TokensOf(e) == TokensOf(e);
  }

  lemma {:induction false} ReadsElems(j: Json, i: nat, f: Flags, depth: nat, fmt: FormatDouble, strtod: Strtod)
    requires Printable(j, ReadsBack(fmt, strtod)) && j.JArray? && i <= |j.elems|
    ensures Reads(PrintElems(j, i, f, depth, fmt) + [']'], ElemsFrom(i, ArrangedElems(j, i, f)) + [EndArray], strtod)
    decreases j, 1, |j.elems| - i
  {
    hide Reads;
    hide ReadsBefore;
    if i == |j.elems| {
      ReadsPunctuation(']', strtod);
      assert [] + [']'] == [']'] && [] + [EndArray] == [EndArray];
    } else {
      var e := j.elems[i];
      assert e in j.elems;
      ReadsPrinted(e, f, depth, fmt, strtod);
      ReadsElems(j, i + 1, f, depth, fmt, strtod);
      DelimitsElems(j, i + 1, f, depth, fmt);
      var more, tmore := PrintElems(j, i + 1, f, depth, fmt), ArrangedElems(j, i + 1, f);
      ElemsFromStep(i, Arranged(e, f), tmore);
      ReadsItemThen(i, f, depth, Print(e, f, depth, fmt), TokensOf(Arranged(e, f)), more, ElemTail(tmore), ']', strtod);
    }
  }

  lemma {:induction false} ReadsObject(j: Json, f: Flags, depth: nat, fmt: FormatDouble, strtod: Strtod)
    requires Printable(j, ReadsBack(fmt, strtod)) && j.JObject?
    ensures Reads(Print(j, f, depth, fmt), TokensOf(Arranged(j, f)), strtod)
    decreases j, 2
  {
    hide Reads;
    var order := Order(j.members, f);
    var ms := ArrangedMembers(j, order, 0, f);
    var more := PrintMembers(j, order, 0, f, depth + 1, fmt);
    ReadsMembers(j, order, 0, f, depth + 1, fmt, strtod);
    ReadsBraces(Indent(f, depth + 1), more, ms, f, depth + 1, strtod);
  }

  lemma ReadsBraces(space: Bytes, more: Bytes, ms: seq<Member>, f: Flags, depth: nat, strtod: Strtod)
    requires space == Indent(f, depth) && Reads(more + ['}'], MembersFrom(0, ms) + [EndObject], strtod)
    ensures Reads(['{'] + space + more + ['}'], TokensOf(JObject(ms)), strtod)
  {
    hide Reads;
    ReadsIndent(f, depth, strtod);
    ReadsBracketed('{', space, more + ['}'], MembersFrom(0, ms) + [EndObject], strtod);
    ItemText(['{'], space, more, ['}']);
    ObjectTokens(ms);
  }

  lemma ObjectTokens(ms: seq<Member>)
    ensures TokensOf(JObject(ms)) == [BeginObject] + (MembersFrom(0, ms) + [EndObject])
  {
  }

  function MembersFrom(i: nat, ms: seq<Member>): seq<Token> {
    if i > 0 then MemberTail(ms) else if ms == [] then [] else MemberTokens(ms[0]) + MemberTail(ms[1..])
  }

  lemma {:induction false} ReadsMember(j: Json, m: Member, f: Flags, depth: nat, fmt: FormatDouble, strtod: Strtod)
    requires Printable(j, ReadsBack(fmt, strtod)) && j.JObject? && m in j.members
    ensures ReadsBefore(PrintMember(j, m, f, depth, fmt), MemberTokens(ArrangedMember(j, m, f)), strtod)
    decreases j, 0
  {
    hide Reads;
    hide ReadsBefore;
    ReadsPrinted(m.value, f, depth, fmt, strtod);
    ReadsName(m.name, f, strtod);
    ReadsThenBefore(NameText(m.name, f), [StringToken(m.name), NameSeparator],
                    Print(m.value, f, depth, fmt), TokensOf(Arranged(m.value, f)), strtod);
    assert PrintMember(j, m, f, depth, fmt) == NameText(m.name, f) + Print(m.value, f, depth, fmt);
  }

  function NameText(name: Bytes, f: Flags): Bytes {
    Quoted(name) + [':'] + (if f.pretty then [' '] else [])
  }

  lemma ReadsName(name: Bytes, f: Flags, strtod: Strtod)
    requires NulFree(name)
    ensures Reads(NameText(name, f), [StringToken(name), NameSeparator], strtod)
  {
    hide Reads;
    var space: Bytes := if f.pretty then [' '] else [];
    if f.pretty { ReadsSpace(' ', strtod); } else { ReadsNothing(strtod); }
    ReadsString(name, strtod);
    ReadsPunctuation(':', strtod);
    ReadsConcat(Quoted(name), [StringToken(name)], [':'], [NameSeparator], strtod);
    ReadsConcat(Quoted(name) + [':'], [StringToken(name)] + [NameSeparator], space, [], strtod);
    assert [StringToken(name)] + [NameSeparator] + [] == [StringToken(name), NameSeparator];
  }

  lemma DelimitsMembers(j: Json, order: seq<Member>, i: nat, f: Flags, depth: nat, fmt: FormatDouble)
    requires j.JObject? && 0 < i <= |order| && forall m :: m in order ==> m in j.members
    ensures Delimits(PrintMembers(j, order, i, f, depth, fmt) + ['}'])
  {
    if i < |order| { assert PrintMembers(j, order, i, f, depth, fmt)[0] == ','; }
  }

  /** One more item in front of the rest of a container's text. */
  lemma ReadsItemThen(i: nat, f: Flags, depth: nat, text: Bytes, titem: seq<Token>, more: Bytes, tmore: seq<Token>,
                      close: Byte, strtod: Strtod)
    requires close in {']', '}'} && ReadsBefore(text, titem, strtod)
    requires Reads(more + [close], tmore + [Punctuation(close).value], strtod) && Delimits(more + [close])
    ensures Reads(Separator(i, f, depth) + text + more + [close],
                  (if i > 0 then [ValueSeparator] else []) + titem + tmore + [Punctuation(close).value], strtod)
  {
    hide Reads;
    hide ReadsBefore;
    var sep := Separator(i, f, depth);
    var tsep: seq<Token> := if i > 0 then [ValueSeparator] else [];
    ReadsSeparator(i, f, depth, strtod);
    ReadsItem(sep, tsep, text, titem, more + [close], tmore + [Punctuation(close).value], strtod);
    ItemText(sep, text, more, [close]);
    ItemTokens(tsep, titem, tmore, [Punctuation(close).value]);
  }

  lemma MembersFromStep(i: nat, m: Member, rest: seq<Member>)
    ensures MembersFrom(i, [m] + rest) == (if i > 0 then [ValueSeparator] else []) + MemberTokens(m) + MemberTail(rest)
    ensures MembersFrom(i + 1, rest) == MemberTail(rest)
  {
    assert ([m] + rest)[1..] == rest;
    assert [] + MemberTokens(m) == MemberTokens(m);
  }

  lemma {:induction false} ReadsMembers(j: Json, order: seq<Member>, i: nat, f: Flags, depth: nat, fmt: FormatDouble, strtod: Strtod)
    requires Printable(j, ReadsBack(fmt, strtod)) && j.JObject? && i <= |order| && forall m :: m in order ==> m in j.members
    ensures Reads(PrintMembers(j, order, i, f, depth, fmt) + ['}'],
                  MembersFrom(i, ArrangedMembers(j, order, i, f)) + [EndObject], strtod)
    decreases j, 1, |order| - i
  {
    hide Reads;
    hide ReadsBefore;
    if i == |order| {
      ReadsPunctuation('}', strtod);
      assert [] + ['}'] == ['}'] && [] + [EndObject] == [EndObject];
    } else {
      var m := order[i];
      ReadsMember(j, m, f, depth, fmt, strtod);
      ReadsMembers(j, order, i + 1, f, depth, fmt, strtod);
      DelimitsMembers(j, order, i + 1, f, depth, fmt);
      var more, tmore := PrintMembers(j, order, i + 1, f, depth, fmt), ArrangedMembers(j, order, i + 1, f);
      MembersFromStep(i, ArrangedMember(j, m, f), tmore);
      ReadsItemThen(i, f, depth, PrintMember(j, m, f, depth, fmt), MemberTokens(ArrangedMember(j, m, f)),
                    more, MemberTail(tmore), '}', strtod);
    }
  }

  // ----- the arranged tree means the same

  lemma {:induction false} InsertDistinct(m: Member, ms: seq<Member>)
    requires DistinctNames(ms) && forall i :: 0 <= i < |ms| ==> ms[i].name != m.name
    ensures DistinctNames(Insert(m, ms))
  {
    if ms != [] && !AtMost(m.name, ms[0].name) {
      InsertDistinct(m, ms[1..]);
      InsertKeeps(m, ms[1..]);
      var r := Insert(m, ms[1..]);
      forall j | 0 <= j < |r| ensures r[j].name != ms[0].name {
        assert r[j] in r;
      }
    }
  }

  lemma {:induction false} SortDistinct(ms: seq<Member>)
    requires DistinctNames(ms)
    ensures DistinctNames(Sort(ms))
  {
    if ms != [] {
      SortDistinct(ms[1..]);
      var r := Sort(ms[1..]);
      forall i | 0 <= i < |r| ensures r[i].name != ms[0].name {
        assert r[i] in r;
      }
      InsertDistinct(ms[0], r);
    }
  }

  lemma OrderKeeps(ms: seq<Member>, f: Flags)
    requires DistinctNames(ms)
    ensures DistinctNames(Order(ms, f))
    ensures forall m :: m in Order(ms, f) <==> m in ms
  {
    SortDistinct(ms);
    assert forall m :: m in Sort(ms) <==> m in multiset(Sort(ms));
    assert forall m :: m in ms <==> m in multiset(ms);
  }

  lemma {:induction false} ArrangedAt(j: Json, order: seq<Member>, i: nat, f: Flags, k: nat)
    requires j.JObject? && i <= |order| && (forall m :: m in order ==> m in j.members) && k < |order| - i
    ensures ArrangedMembers(j, order, i, f)[k] == ArrangedMember(j, order[i + k], f)
    decreases k
  {
    if k > 0 { ArrangedAt(j, order, i + 1, f, k - 1); }
  }

  lemma {:induction false} ArrangedElemAt(j: Json, i: nat, f: Flags, k: nat)
    requires j.JArray? && i <= |j.elems| && k < |j.elems| - i
    ensures ArrangedElems(j, i, f)[k] == Arranged(j.elems[i + k], f)
    decreases k
  {
    if k > 0 { ArrangedElemAt(j, i + 1, f, k - 1); }
  }

  lemma {:induction false} EvalArranged(j: Json, f: Flags)
    requires Proper(j)
    ensures Eval(Arranged(j, f)) == Eval(j)
    decreases j, 1
  {
    match j {
      case JArray(es) =>
        forall k | 0 <= k < |es|
          ensures Eval(ArrangedElems(j, 0, f)[k]) == Eval(es[k])
        {
          ArrangedElemAt(j, 0, f, k);
          EvalArranged(es[k], f);
        }
        assert EvalElems(ArrangedElems(j, 0, f)) == EvalElems(es);
      case JObject(ms) => EvalArrangedObject(j, f);
      case _ =>
    }
  }

  lemma {:induction false} EvalArrangedObject(j: Json, f: Flags)
    requires Proper(j) && j.JObject?
    ensures EvalMembers(ArrangedMembers(j, Order(j.members, f), 0, f)) == EvalMembers(j.members)
    decreases j, 0
  {
    var ms, order := j.members, Order(j.members, f);
    var arranged := ArrangedMembers(j, order, 0, f);
    OrderKeeps(ms, f);
    forall k | 0 <= k < |arranged|
      ensures arranged[k].name == order[k].name && Eval(arranged[k].value) == Eval(order[k].value)
    {
      ArrangedAt(j, order, 0, f, k);
      assert order[k] in ms;
      EvalArranged(order[k].value, f);
    }
    SameMembersSameMap(arranged, order);
    SameSetSameMap(order, ms);
  }

  lemma {:induction false} SameMembersSameMap(a: seq<Member>, b: seq<Member>)
    requires |a| == |b| && forall k :: 0 <= k < |a| ==> a[k].name == b[k].name && Eval(a[k].value) == Eval(b[k].value)
    ensures EvalMembers(a) == EvalMembers(b)
    decreases |a|
  {
    if a != [] {
      SameMembersSameMap(a[..|a| - 1], b[..|b| - 1]);
    }
  }

  lemma SameSetSameMap(a: seq<Member>, b: seq<Member>)
    requires DistinctNames(a) && DistinctNames(b) && forall m :: m in a <==> m in b
    ensures EvalMembers(a) == EvalMembers(b)
  {
    forall k | k in EvalMembers(a)
      ensures k in EvalMembers(b) && EvalMembers(b)[k] == EvalMembers(a)[k]
    {
      SameValueIn(a, b, k);
    }
    forall k | k in EvalMembers(b)
      ensures k in EvalMembers(a)
    {
      SameValueIn(b, a, k);
    }
  }

  lemma SameValueIn(a: seq<Member>, b: seq<Member>, k: Bytes)
    requires DistinctNames(a) && DistinctNames(b) && (forall m :: m in a ==> m in b) && k in EvalMembers(a)
    ensures k in EvalMembers(b) && EvalMembers(b)[k] == EvalMembers(a)[k]
  {
    var i := EvalName(a, k);
    EvalAt(a, i);
    assert a[i] in b;
    var i' :| 0 <= i' < |b| && b[i'] == a[i];
    EvalAt(b, i');
  }

  // ----- nesting, seen in the tokens

  /** The deepest nesting on a run over tokens that starts at level `level`. */
  function Nesting(tokens: seq<Token>, level: int, deepest: int): int {
    if tokens == [] then deepest
    else if tokens[0] in {BeginArray, BeginObject} then
      Nesting(tokens[1..], level + 1, if level + 1 > deepest then level + 1 else deepest)
    else if tokens[0] in {EndArray, EndObject} then Nesting(tokens[1..], level - 1, deepest)
    else Nesting(tokens[1..], level, deepest)
  }

  lemma NestingStep(t: Token, rest: seq<Token>, level: int, deepest: int)
    ensures Nesting([t] + rest, level, deepest) ==
            if t in {BeginArray, BeginObject} then Nesting(rest, level + 1, Max(deepest, level + 1))
            else if t in {EndArray, EndObject} then Nesting(rest, level - 1, deepest)
            else Nesting(rest, level, deepest)
  {
    assert ([t] + rest)[1..] == rest;
  }

  lemma {:induction false} NestingValue(j: Json, rest: seq<Token>, level: int, deepest: int)
    requires level <= deepest
    ensures Nesting(TokensOf(j) + rest, level, deepest) == Nesting(rest, level, Max(deepest, level + Depth(j)))
    decreases j, 3
  {
    match j {
      case JArray(_) => NestingArray(j, rest, level, deepest);
      case JObject(_) => NestingObject(j, rest, level, deepest);
      case _ => NestingStep(TokensOf(j)[0], rest, level, deepest);
    }
  }

  lemma {:induction false} NestingArray(j: Json, rest: seq<Token>, level: int, deepest: int)
    requires j.JArray? && level <= deepest
    ensures Nesting(TokensOf(j) + rest, level, deepest) == Nesting(rest, level, Max(deepest, level + Depth(j)))
    decreases j, 2
  {
    hide Nesting;
    var es, tail, inner := j.elems, [EndArray] + rest, Max(deepest, level + 1);
    NestingStep(EndArray, rest, level + 1, Max(deepest, level + Depth(j)));
    if es == [] {
      assert TokensOf(j) + rest == [BeginArray] + tail;
      NestingStep(BeginArray, tail, level, deepest);
    } else {
      var body := TokensOf(es[0]) + (ElemTail(es[1..]) + tail);
      assert TokensOf(j) + rest == [BeginArray] + body;
      NestingStep(BeginArray, body, level, deepest);
      NestingValue(es[0], ElemTail(es[1..]) + tail, level + 1, inner);
      NestingElems(j, es[1..], tail, level + 1, Max(inner, level + 1 + Depth(es[0])));
    }
  }

  lemma {:induction false} NestingObject(j: Json, rest: seq<Token>, level: int, deepest: int)
    requires j.JObject? && level <= deepest
    ensures Nesting(TokensOf(j) + rest, level, deepest) == Nesting(rest, level, Max(deepest, level + Depth(j)))
    decreases j, 2
  {
    hide Nesting;
    var ms, tail, inner := j.members, [EndObject] + rest, Max(deepest, level + 1);
    NestingStep(EndObject, rest, level + 1, Max(deepest, level + Depth(j)));
    if ms == [] {
      assert TokensOf(j) + rest == [BeginObject] + tail;
      NestingStep(BeginObject, tail, level, deepest);
    } else {
      var body := MemberTokens(ms[0]) + (MemberTail(ms[1..]) + tail);
      assert TokensOf(j) + rest == [BeginObject] + body;
      NestingStep(BeginObject, body, level, deepest);
      NestingMember(j, ms[0], MemberTail(ms[1..]) + tail, level + 1, inner);
      NestingMembers(j, ms[1..], tail, level + 1, Max(inner, level + 1 + Depth(ms[0].value)));
    }
  }

  lemma {:induction false} NestingElems(j: Json, es: seq<Json>, rest: seq<Token>, level: int, deepest: int)
    requires j.JArray? && (forall e :: e in es ==> e in j.elems) && level <= deepest
    ensures Nesting(ElemTail(es) + rest, level, deepest) == Nesting(rest, level, Max(deepest, level + DepthElems(es)))
    decreases j, 1, |es|
  {
    if es == [] {
      assert ElemTail(es) + rest == rest;
    } else {
      assert es[0] in j.elems;
      assert ElemTail(es) + rest == [ValueSeparator] + (TokensOf(es[0]) + (ElemTail(es[1..]) + rest));
      NestingStep(ValueSeparator, TokensOf(es[0]) + (ElemTail(es[1..]) + rest), level, deepest);
      NestingValue(es[0], ElemTail(es[1..]) + rest, level, deepest);
      NestingElems(j, es[1..], rest, level, Max(deepest, level + Depth(es[0])));
    }
  }

  lemma {:induction false} NestingMember(j: Json, m: Member, rest: seq<Token>, level: int, deepest: int)
    requires j.JObject? && m in j.members && level <= deepest
    ensures Nesting(MemberTokens(m) + rest, level, deepest) == Nesting(rest, level, Max(deepest, level + Depth(m.value)))
    decreases j, 0
  {
    var v := TokensOf(m.value) + rest;
    assert MemberTokens(m) + rest == [StringToken(m.name)] + ([NameSeparator] + v);
    NestingStep(StringToken(m.name), [NameSeparator] + v, level, deepest);
    NestingStep(NameSeparator, v, level, deepest);
    NestingValue(m.value, rest, level, deepest);
  }

  lemma {:induction false} NestingMembers(j: Json, ms: seq<Member>, rest: seq<Token>, level: int, deepest: int)
    requires j.JObject? && (forall m :: m in ms ==> m in j.members) && level <= deepest
    ensures Nesting(MemberTail(ms) + rest, level, deepest) == Nesting(rest, level, Max(deepest, level + DepthMembers(ms)))
    decreases j, 1, |ms|
  {
    if ms == [] {
      assert MemberTail(ms) + rest == rest;
    } else {
      assert MemberTail(ms) + rest == [ValueSeparator] + (MemberTokens(ms[0]) + (MemberTail(ms[1..]) + rest));
      NestingStep(ValueSeparator, MemberTokens(ms[0]) + (MemberTail(ms[1..]) + rest), level, deepest);
      NestingMember(j, ms[0], MemberTail(ms[1..]) + rest, level, deepest);
      NestingMembers(j, ms[1..], rest, level, Max(deepest, level + Depth(ms[0].value)));
    }
  }

  lemma SameTokensSameDepth(a: Json, b: Json)
    requires TokensOf(a) == TokensOf(b)
    ensures Depth(a) == Depth(b)
  {
    hide TokensOf;
    NestingValue(a, [], 0, 0);
    NestingValue(b, [], 0, 0);
    assert TokensOf(a) + [] == TokensOf(a) && TokensOf(b) + [] == TokensOf(b);
  }
}
