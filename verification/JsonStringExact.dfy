/** json_lex_string against section 2.5 of RFC 4627: which texts stand between quotes, and which
    bytes they mean. */
module JsonStringExact {
  import opened Bytes
  import opened JsonCodec

  /** The characters of a string.  Digits are those behind "\u". */
  datatype Char =
    | Plain(byte: Byte)
    | Escaped(letter: Byte)
    | Basic(digits: Bytes)
    | Pair(leading: Bytes, trailing: Bytes)

  predicate IsPlain(b: Byte) { b != '\\' && b != '"' && b as int >= 0x20 }

  /** Four hexadecimal digits. */
  ghost predicate IsHex4(h: Bytes) {
    |h| == 4 && AllHex(h)
  }

  /** What the code lets through: any escape of section 2.5 but that of NUL and those of leading
      surrogates without a trailing one. */
  ghost predicate WellFormed(c: Char) {
    match c
    case Plain(b) => IsPlain(b)
    case Escaped(l) => l in {'"', '\\', '/', 'b', 'f', 'n', 'r', 't'}
    case Basic(h) => IsHex4(h) && HexNumber(h) != 0 && !IsLeading(HexNumber(h))
    case Pair(h, l) => IsHex4(h) && IsHex4(l) && IsLeading(HexNumber(h)) && IsTrailing(HexNumber(l))
  }

  function RenderChar(c: Char): Bytes {
    match c
    case Plain(b) => [b]
    case Escaped(l) => ['\\', l]
    case Basic(h) => ['\\', 'u'] + h
    case Pair(h, l) => ['\\', 'u'] + (h + (['\\', 'u'] + l))
  }

  /** The UTF-8 form of the character. */
  ghost function Meaning(c: Char): Bytes
    requires WellFormed(c)
  {
    match c
    case Plain(b) => [b]
    case Escaped(l) =>
      [match l
       case 'b' => 8 as char
       case 'f' => 12 as char
       case 'n' => 10 as char
       case 'r' => 13 as char
       case 't' => 9 as char
       case _ => l]
    case Basic(h) => PutUtf8(HexNumber(h))
    case Pair(h, l) => PutUtf8(0x10000 + (HexNumber(h) - 0xd800) * 0x400 + (HexNumber(l) - 0xdc00))
  }

  ghost predicate AllWellFormed(cs: seq<Char>) {
    forall c :: c in cs ==> WellFormed(c)
  }

  function Render(cs: seq<Char>): Bytes {
    if cs == [] then [] else RenderChar(cs[0]) + Render(cs[1..])
  }

  ghost function Means(cs: seq<Char>): Bytes
    requires AllWellFormed(cs)
  {
    if cs == [] then [] else Meaning(cs[0]) + Means(cs[1..])
  }

  /** How far the lexer reads before a closing quote: plain bytes, and backslashes with the byte
      behind them. */
  ghost predicate IsRaw(s: Bytes) {
    s == [] || (if s[0] == '\\' then |s| >= 2 && IsRaw(s[2..]) else IsPlain(s[0]) && IsRaw(s[1..]))
  }

  // ----- characters are unescaped to what they mean

  lemma UnescapeChar(c: Char, rest: Bytes)
    requires WellFormed(c)
    ensures Unescape(RenderChar(c) + rest) == Prepend(Meaning(c), Unescape(rest))
  {
    match c
    case Plain(b) => assert (RenderChar(c) + rest)[1..] == rest;
    case Escaped(l) => assert (RenderChar(c) + rest)[2..] == rest;
    case Basic(h) => UnescapeBasic(c, rest);
    case Pair(_, _) => UnescapePair(c, rest);
  }

  lemma UnescapeBasic(c: Char, rest: Bytes)
    requires WellFormed(c) && c.Basic?
    ensures Unescape(RenderChar(c) + rest) == Prepend(Meaning(c), Unescape(rest))
  {
    hide PutUtf8;
    hide Unescape;
    var h := c.digits;
    assert RenderChar(c) + rest == ['\\', 'u'] + (h + rest) && (h + rest)[4..] == rest;
    Lex4HexSpelled(h, HexNumber(h), rest);
    UnescapeU(h + rest);
  }

  lemma UnescapePair(c: Char, rest: Bytes)
    requires WellFormed(c) && c.Pair?
    ensures Unescape(RenderChar(c) + rest) == Prepend(Meaning(c), Unescape(rest))
  {
    hide PutUtf8;
    hide Unescape;
    hide DecodeUtf8;
    var h, l := c.leading, c.trailing;
    assert RenderChar(c) + rest == ['\\', 'u'] + (h + (['\\', 'u'] + (l + rest)));
    UnescapeSurrogatePair(0x10000 + (HexNumber(h) - 0xd800) * 0x400 + (HexNumber(l) - 0xdc00),
                          HexNumber(h), HexNumber(l), h, l, rest);
  }

  lemma RawChar(c: Char, rest: Bytes)
    requires WellFormed(c) && IsRaw(rest)
    ensures IsRaw(RenderChar(c) + rest)
  {
    match c
    case Plain(b) => assert (RenderChar(c) + rest)[1..] == rest;
    case Escaped(l) => assert (RenderChar(c) + rest)[2..] == rest;
    case Basic(h) => RawU(h, rest);
    case Pair(h, l) => RawPair(h, l, rest);
  }

  lemma RawPair(h: Bytes, l: Bytes, rest: Bytes)
    requires AllHex(h) && AllHex(l) && IsRaw(rest)
    ensures IsRaw(RenderChar(Pair(h, l)) + rest)
  {
    hide IsRaw;
    RawU(l, rest);
    RawU(h, ['\\', 'u'] + l + rest);
    assert RenderChar(Pair(h, l)) + rest == ['\\', 'u'] + h + (['\\', 'u'] + l + rest);
  }

  lemma RawU(h: Bytes, rest: Bytes)
    requires AllHex(h) && IsRaw(rest)
    ensures IsRaw(['\\', 'u'] + h + rest)
  {
    RawHex(h, rest);
    assert (['\\', 'u'] + h + rest)[2..] == h + rest;
  }

  lemma {:induction false} RawHex(h: Bytes, rest: Bytes)
    requires AllHex(h) && IsRaw(rest)
    ensures IsRaw(h + rest)
  {
    if h == [] {
      assert h + rest == rest;
    } else {
      assert (h + rest)[1..] == h[1..] + rest;
      assert HexitValue(h[0]) >= 0;
      RawHex(h[1..], rest);
    }
  }

  lemma {:induction false} UnescapeRendered(cs: seq<Char>)
    requires AllWellFormed(cs)
    ensures Unescape(Render(cs)) == Text(Means(cs)) && IsRaw(Render(cs))
  {
    hide Unescape;
    if cs == [] {
      UnescapePlain([]);
    } else {
      UnescapeChar(cs[0], Render(cs[1..]));
      UnescapeRendered(cs[1..]);
      RawChar(cs[0], Render(cs[1..]));
    }
  }

  /** Without a backslash there is nothing to unescape. */
  lemma {:induction false} RawPlain(s: Bytes)
    requires IsRaw(s) && '\\' !in s
    ensures '"' !in s && Unescape(s) == Text(s)
  {
    if s != [] {
      RawPlain(s[1..]);
      assert s == [s[0]] + s[1..];
    }
    UnescapePlain(s);
  }

  // ----- and nothing else is accepted

  lemma UnicodeOf(t: Bytes) returns (c: Char, rest: Bytes)
    requires LexUnicode(t).Unicode?
    ensures WellFormed(c) && ['\\', 'u'] + t == RenderChar(c) + rest
  {
    UnicodeAccepted(t);
    if IsLeading(HexNumber(t[..4])) {
      c, rest := Pair(t[..4], t[6..][..4]), t[10..];
      assert t == t[..4] + (['\\', 'u'] + t[6..][..4]) + rest;
    } else {
      c, rest := Basic(t[..4]), t[4..];
      assert t == t[..4] + rest;
    }
  }

  lemma CharOf(s: Bytes) returns (c: Char, rest: Bytes)
    requires s != [] && IsRaw(s) && Unescape(s).Text?
    ensures WellFormed(c) && s == RenderChar(c) + rest
  {
    c, rest := FirstChar(s);
  }

  /** The inside of what a character leaves is again the inside of a string. */
  lemma RestIsRaw(c: Char, rest: Bytes)
    requires WellFormed(c) && IsRaw(RenderChar(c) + rest)
    ensures IsRaw(rest)
  {
    var s := RenderChar(c) + rest;
    match c
    case Plain(b) => assert s[1..] == rest;
    case Escaped(l) => assert s[2..] == rest;
    case Basic(h) =>
      assert s[2..] == h + rest;
      HexRest(h, rest);
    case Pair(h, l) =>
      var tail := ['\\', 'u'] + (l + rest);
      assert s[2..] == h + tail && tail[2..] == l + rest;
      HexRest(h, tail);
      HexRest(l, rest);
  }

  lemma {:induction false} HexRest(h: Bytes, rest: Bytes)
    requires AllHex(h) && IsRaw(h + rest)
    ensures IsRaw(rest)
  {
    if h == [] {
      assert h + rest == rest;
    } else {
      assert (h + rest)[1..] == h[1..] + rest;
      assert HexitValue(h[0]) >= 0;
      HexRest(h[1..], rest);
    }
  }

  lemma {:induction false} CharsOf(s: Bytes) returns (cs: seq<Char>)
    requires IsRaw(s) && Unescape(s).Text?
    ensures AllWellFormed(cs) && Render(cs) == s
    decreases |s|
  {
    hide Unescape;
    if s == [] {
      cs := [];
    } else {
      var c, rest := CharOf(s);
      UnescapeChar(c, rest);
      RestIsRaw(c, rest);
      cs := CharsOf(rest);
      assert ([c] + cs)[1..] == cs;
      cs := [c] + cs;
    }
  }

  /** `raw` is written with characters that mean `s`. */
  ghost predicate IsString(cs: seq<Char>, raw: Bytes, s: Bytes) {
    AllWellFormed(cs) && Render(cs) == raw && Means(cs) == s
  }

  /** What stands between quotes is accepted as the string `s` if and only if it is a sequence of
      characters of section 2.5 that mean `s`. */
  lemma AcceptsStrings(raw: Bytes, s: Bytes)
    ensures IsRaw(raw) && Unescape(raw) == Text(s) <==> exists cs :: IsString(cs, raw, s)
  {
    hide Unescape;
    forall cs | IsString(cs, raw, s)
      ensures IsRaw(raw) && Unescape(raw) == Text(s)
    {
      UnescapeRendered(cs);
    }
    if IsRaw(raw) && Unescape(raw) == Text(s) {
      var cs := CharsOf(raw);
      UnescapeRendered(cs);
      assert IsString(cs, raw, s);
    }
  }

  // ----- what is refused, and why

  /** Four digits that are not what json_lex_4hex wants. */
  ghost predicate Hex4Wrong(t: Bytes, e: UnescapeError) {
    match e
    case EndsWithinU => |t| < 4
    case MalformedU => |t| >= 4 && !AllHex(t[..4])
    case NulEscape => |t| >= 4 && AllHex(t[..4]) && HexNumber(t[..4]) == 0
    case _ => false
  }

  /** What follows a "\u" is wrong: the digits, or behind a leading surrogate the lack of another
      escape, its digits, or their value. */
  ghost predicate UnicodeWrong(t: Bytes, e: UnescapeError) {
    || Hex4Wrong(t, e)
    || (HasHex4(t) && IsLeading(HexNumber(t[..4]))
        && if |t| >= 6 && t[4] == '\\' && t[5] == 'u' then
             Hex4Wrong(t[6..], e) || (e == NotTrailing && HasHex4(t[6..]) && !IsTrailing(HexNumber(t[6..][..4])))
           else e == MalformedPair)
  }

  /** No character starts here, for this reason. */
  ghost predicate Wrong(rest: Bytes, e: UnescapeError) {
    && |rest| >= 2 && rest[0] == '\\'
    && if rest[1] == 'u' then UnicodeWrong(rest[2..], e)
       else e == BadEscape(rest[1]) && rest[1] !in {'"', '\\', '/', 'b', 'f', 'n', 'r', 't'}
  }

  lemma Hex4Refused(t: Bytes)
    requires Lex4Hex(t).Hex4Bad?
    ensures Hex4Wrong(t, Lex4Hex(t).error)
  {
    if |t| >= 4 { HexNumber4(t); }
  }

  lemma UnicodeRefused(t: Bytes)
    requires LexUnicode(t).UnicodeBad?
    ensures UnicodeWrong(t, LexUnicode(t).error)
  {
    hide Lex4Hex;
    hide PutUtf8;
    Lex4HexIs(t);
    if Lex4Hex(t).Hex4Bad? {
      Hex4Refused(t);
    } else if |t| >= 6 {
      Lex4HexIs(t[6..]);
      if Lex4Hex(t[6..]).Hex4Bad? { Hex4Refused(t[6..]); }
    }
  }

  /** The inside of a string that is refused starts with characters, and behind them is what the error
      says. */
  lemma {:induction false} WhyRefused(s: Bytes) returns (cs: seq<Char>, rest: Bytes)
    requires IsRaw(s) && Unescape(s).Bad?
    ensures AllWellFormed(cs) && s == Render(cs) + rest && Wrong(rest, Unescape(s).error)
    decreases |s|
  {
    hide LexUnicode;
    hide Unescape;
    hide Wrong;
    hide WellFormed;
    hide RenderChar;
    hide Meaning;
    hide WrongHere;
    if s == [] {
      UnescapePlain(s);
    } else if WrongHere(s) {
      cs, rest := [], s;
      HereIsWrong(s);
      assert [] + s == s;
    } else {
      var c, more := FirstChar(s);
      UnescapeChar(c, more);
      RestIsRaw(c, more);
      cs, rest := WhyRefused(more);
      RenderMore(c, cs, rest);
      cs := [c] + cs;
    }
  }

  lemma RenderMore(c: Char, cs: seq<Char>, rest: Bytes)
    ensures RenderChar(c) + (Render(cs) + rest) == Render([c] + cs) + rest
  {
    assert ([c] + cs)[1..] == cs;
  }

  predicate WrongHere(s: Bytes)
    requires s != [] && (s[0] == '\\' ==> |s| >= 2)
  {
    s[0] == '\\' && if s[1] == 'u' then LexUnicode(s[2..]).UnicodeBad? else SimpleEscape(s[1]).None?
  }

  lemma HereIsWrong(s: Bytes)
    requires s != [] && (s[0] == '\\' ==> |s| >= 2) && WrongHere(s)
    ensures Unescape(s).Bad? && Wrong(s, Unescape(s).error)
  {
    hide LexUnicode;
    if s[1] == 'u' { UnicodeRefused(s[2..]); }
  }

  lemma FirstChar(s: Bytes) returns (c: Char, rest: Bytes)
    requires s != [] && IsRaw(s) && !WrongHere(s)
    ensures WellFormed(c) && s == RenderChar(c) + rest && |rest| < |s|
  {
    if s[0] != '\\' {
      c, rest := Plain(s[0]), s[1..];
    } else if s[1] == 'u' {
      assert s == ['\\', 'u'] + s[2..];
      c, rest := UnicodeOf(s[2..]);
    } else {
      c, rest := Escaped(s[1]), s[2..];
    }
  }

  // ----- the writer's escapes are the shortest

  lemma {:induction false} EscapeConcat(a: Bytes, b: Bytes)
    ensures Escape(a + b) == Escape(a) + Escape(b)
  {
    if a == [] {
      assert a + b == b;
    } else {
      assert (a + b)[0] == a[0] && (a + b)[1..] == a[1..] + b;
      EscapeConcat(a[1..], b);
    }
  }

  /** Bytes outside ASCII are not escaped. */
  lemma {:induction false} EscapeHigh(s: Bytes)
    requires forall i :: 0 <= i < |s| ==> s[i] as int >= 0x80
    ensures |Escape(s)| == |s|
  {
    if s != [] { EscapeHigh(s[1..]); }
  }

  lemma HighOctets(u: nat)
    requires 0x80 <= u <= 0x10ffff
    ensures |PutUtf8(u)| <= 4 && (u < 0x10000 ==> |PutUtf8(u)| <= 3)
    ensures forall i :: 0 <= i < |PutUtf8(u)| ==> PutUtf8(u)[i] as int >= 0x80
  {
    hide LeadOctet;
    hide Continuation;
    var s := PutUtf8(u);
    PutUtf8Decodes(u, []);
    assert s + [] == s;
  }

  lemma EscapeOne(b: Byte)
    ensures Escape([b]) == EscapeByte(b)
  {
    assert [b][1..] == [] && EscapeByte(b) + [] == EscapeByte(b);
  }

  lemma CharShortest(c: Char)
    requires WellFormed(c)
    ensures |Escape(Meaning(c))| <= |RenderChar(c)|
  {
    hide PutUtf8;
    hide Escape;
    match c
    case Plain(b) => EscapeOne(b);
    case Escaped(l) => LetterShortest(l);
    case Basic(h) => BasicShortest(h);
    case Pair(h, l) => PairShortest(h, l);
  }

  lemma PairShortest(h: Bytes, l: Bytes)
    requires WellFormed(Pair(h, l))
    ensures |Escape(Meaning(Pair(h, l)))| <= 4
  {
    hide PutUtf8;
    hide Escape;
    var u := 0x10000 + (HexNumber(h) - 0xd800) * 0x400 + (HexNumber(l) - 0xdc00);
    HighOctets(u);
    EscapeHigh(PutUtf8(u));
  }

  lemma LetterShortest(l: Byte)
    requires WellFormed(Escaped(l))
    ensures |Escape(Meaning(Escaped(l)))| <= 2
  {
    EscapeOne(Meaning(Escaped(l))[0]);
  }

  lemma BasicShortest(h: Bytes)
    requires WellFormed(Basic(h))
    ensures |Escape(Meaning(Basic(h)))| <= 6
  {
    hide Escape;
    var u := HexNumber(h);
    assert h[..4] == h;
    Lex4HexIs(h);
    if u < 0x80 {
      assert PutUtf8(u) == [ByteOf(u)];
      EscapeOne(ByteOf(u));
    } else {
      hide PutUtf8;
      HighOctets(u);
      EscapeHigh(PutUtf8(u));
    }
  }

  lemma {:induction false} CharsShortest(cs: seq<Char>)
    requires AllWellFormed(cs)
    ensures |Escape(Means(cs))| <= |Render(cs)|
  {
    if cs != [] {
      CharShortest(cs[0]);
      CharsShortest(cs[1..]);
      EscapeConcat(Meaning(cs[0]), Means(cs[1..]));
    }
  }

  /** No text that the reader takes for the string `s` is shorter than the one that the writer
      writes. */
  lemma EscapeShortest(raw: Bytes, s: Bytes)
    requires IsRaw(raw) && Unescape(raw) == Text(s)
    ensures |Escape(s)| <= |raw|
  {
    AcceptsStrings(raw, s);
    var cs :| IsString(cs, raw, s);
    CharsShortest(cs);
  }
}
