/** Quoted strings of JSON: escaping, unescaping, and the UTF-16 and UTF-8 arithmetic behind
    the \u escapes. */
module JsonCodec {
  import opened Bits
  import opened Bytes

  datatype UnescapeError =
    | UnescapedQuote
    | EndsWithBackslash
    | BadEscape(c: Byte)
    | EndsWithinU
    | MalformedU
    | NulEscape
    | MalformedPair
    | NotTrailing

  datatype Unescaped = Text(text: Bytes) | Bad(error: UnescapeError)

  /** The conversion of an int to a char. */
  function ByteOf(n: nat): Byte { (n % 256) as char }

  // ----- hexadecimal digits (util.c)

  /** hexit_value: the value of a hexadecimal digit, or -1. */
  function HexitValue(c: Byte): int {
    if '0' <= c <= '9' then c as int - '0' as int
    else if 'a' <= c <= 'f' then c as int - 'a' as int + 10
    else if 'A' <= c <= 'F' then c as int - 'A' as int + 10
    else -1
  }

  /** The digits in either letter case. */
  lemma HexitIs(c: Byte, d: nat)
    requires d < 16
    ensures HexitValue(c) == d <==> c == "0123456789abcdef"[d] || c == "0123456789ABCDEF"[d]
    ensures -1 <= HexitValue(c) < 16
  {
    assert "0123456789abcdef" == "0123456789" + ['a', 'b', 'c', 'd', 'e', 'f'];
    assert "0123456789ABCDEF" == "0123456789" + ['A', 'B', 'C', 'D', 'E', 'F'];
  }

  ghost predicate AllHex(s: Bytes) {
    forall i :: 0 <= i < |s| ==> HexitValue(s[i]) >= 0
  }

  /** The number that a run of hexadecimal digits spells, most significant first. */
  ghost function HexNumber(s: Bytes): nat
    requires AllHex(s)
  {
    if |s| == 0 then 0 else 16 * HexNumber(s[..|s| - 1]) + HexitValue(s[|s| - 1])
  }

  /** hexits_value on the first `n` bytes of `s`. */
  method HexitsValue(s: Bytes, n: nat) returns (value: nat, ok: bool)
    requires n <= |s|
    ensures ok <==> AllHex(s[..n])
    ensures ok ==> value == HexNumber(s[..n])
  {
    value, ok := 0, true;
    var i := 0;
    while i < n
      invariant 0 <= i <= n
      invariant AllHex(s[..i]) && value == HexNumber(s[..i])
    {
      var hexit := HexitValue(s[i]);
      assert s[..n][i] == s[i];
      if hexit < 0 {
        ok := false;
        return;
      }
      assert s[..i + 1][..i] == s[..i];
      value := 16 * value + hexit;
      i := i + 1;
    }
  }

  // ----- UTF-16 surrogates (unicode.h, util.c) and UTF-8 (dynamic-string.c)

  predicate IsLeading(c: nat) { 0xd800 <= c <= 0xdbff }

  predicate IsTrailing(c: nat) { 0xdc00 <= c <= 0xdfff }

  predicate IsScalar(u: nat) { u <= 0x10ffff && !(0xd800 <= u <= 0xdfff) }

  /** utf16_decode_surrogate_pair. */
  function DecodeSurrogatePair(leading: nat, trailing: nat): nat {
    var w := And(Shr(leading, 6), 0xf);
    var u := w + 1;
    var x0 := And(leading, 0x3f);
    var x1 := And(trailing, 0x3ff);
    Or(Or(u * 0x10000, x0 * 0x400), x1)
  }

  lemma Masks(a: nat)
    ensures And(a, 0xf) == a % 16 && And(a, 0x3f) == a % 64 && And(a, 0x3ff) == a % 1024
  {
    SmallPowers();
    BigPowers();
    AndMask(a, 4);
    AndMask(a, 6);
    AndMask(a, 10);
  }

  lemma Shifts(a: nat)
    ensures Shr(a, 6) == a / 64 && Shr(a, 12) == a / 4096 && Shr(a, 18) == a / 0x40000
  {
    SmallPowers();
    BigPowers();
    ShrDiv(a, 6);
    ShrDiv(a, 12);
    ShrDiv(a, 18);
  }

  lemma Combine(u: nat, x0: nat, x1: nat)
    requires x0 < 64 && x1 < 1024
    ensures Or(Or(u * 0x10000, x0 * 0x400), x1) == u * 0x10000 + x0 * 0x400 + x1
  {
    BigPowers();
    OrDisjoint(u, 16, x0 * 0x400);
    OrDisjoint(u * 64 + x0, 10, x1);
  }

  /** Section 2.2 of RFC 2781: the pair is the scalar value minus 0x10000, ten bits each. */
  lemma DecodesSurrogatePair(leading: nat, trailing: nat)
    requires IsLeading(leading) && IsTrailing(trailing)
    ensures DecodeSurrogatePair(leading, trailing)
         == 0x10000 + (leading - 0xd800) * 0x400 + (trailing - 0xdc00)
    ensures 0x10000 <= DecodeSurrogatePair(leading, trailing) <= 0x10ffff
  {
    Shifts(leading);
    Masks(leading / 64);
    Masks(leading);
    Masks(trailing);
    Combine((leading / 64) % 16 + 1, leading % 64, trailing % 1024);
    SurrogateArithmetic(leading, trailing);
  }

  lemma SurrogateArithmetic(leading: nat, trailing: nat)
    requires IsLeading(leading) && IsTrailing(trailing)
    ensures ((leading / 64) % 16 + 1) * 0x10000 + (leading % 64) * 0x400 + trailing % 1024
         == 0x10000 + (leading - 0xd800) * 0x400 + (trailing - 0xdc00)
  {
    assert (leading / 64) % 16 == leading / 64 - 0x360;
    assert trailing % 1024 == trailing - 0xdc00;
  }

  /** The two kinds of octet that ds_put_utf8 writes, as C computes them. */
  function LeadOctet(tag: nat, x: nat): Byte { ByteOf(Or(tag, x)) }

  function Continuation(x: nat): Byte { ByteOf(Or(0x80, And(x, 0x3f))) }

  /** ds_put_utf8: the bytes it appends. */
  function PutUtf8(uc: nat): Bytes {
    if uc <= 0x7f then [ByteOf(uc)]
    else if uc <= 0x7ff then [LeadOctet(0xc0, Shr(uc, 6)), Continuation(uc)]
    else if uc <= 0xffff then [LeadOctet(0xe0, Shr(uc, 12)), Continuation(Shr(uc, 6)), Continuation(uc)]
    else if uc <= 0x10ffff then
      [LeadOctet(0xf0, Shr(uc, 18)), Continuation(Shr(uc, 12)), Continuation(Shr(uc, 6)), Continuation(uc)]
    else [LeadOctet(0xe0, 0xf), Continuation(0x3ff), Continuation(0xfffd)]  // ds_put_utf8(ds, 0xfffd)
  }

  /** Section 3 of RFC 3629, read as a decoder: the number in the first character of `s` and
      its length, if `s` starts with a lead octet and its continuation octets in shortest
      form. */
  ghost function DecodeUtf8(s: Bytes): Option<(nat, nat)> {
    if |s| == 0 then None
    else
      var b0 := s[0] as int;
      if b0 < 0x80 then Some((b0, 1))
      else if 0xc0 <= b0 < 0xe0 && Continues(s, 1) then Shortest((b0 - 0xc0) * 64 + Low(s[1]), 2, 0x80)
      else if 0xe0 <= b0 < 0xf0 && Continues(s, 2) then
        Shortest((b0 - 0xe0) * 4096 + Low(s[1]) * 64 + Low(s[2]), 3, 0x800)
      else if 0xf0 <= b0 < 0xf8 && Continues(s, 3) then
        Shortest((b0 - 0xf0) * 0x40000 + Low(s[1]) * 4096 + Low(s[2]) * 64 + Low(s[3]), 4, 0x10000)
      else None
  }

  ghost predicate Continues(s: Bytes, n: nat) {
    |s| > n && forall i :: 1 <= i <= n ==> 0x80 <= s[i] as int < 0xc0
  }

  ghost function Low(c: Byte): nat { c as int % 64 }

  ghost function Shortest(u: nat, n: nat, least: nat): Option<(nat, nat)> {
    if u >= least then Some((u, n)) else None
  }

  lemma ContinuationValue(x: nat)
    ensures Continuation(x) == ByteOf(0x80 + x % 64)
  {
    Masks(x);
    SmallPowers();
    OrDisjoint(2, 6, x % 64);
  }

  lemma LeadOctetValue(x: nat)
    ensures x < 32 ==> LeadOctet(0xc0, x) == ByteOf(0xc0 + x)
    ensures x < 16 ==> LeadOctet(0xe0, x) == ByteOf(0xe0 + x)
    ensures x < 8 ==> LeadOctet(0xf0, x) == ByteOf(0xf0 + x)
  {
    SmallPowers();
    if x < 32 { OrDisjoint(6, 5, x); }
    if x < 16 { OrDisjoint(14, 4, x); }
    if x < 8 { OrDisjoint(30, 3, x); }
  }

  ghost predicate Decodes(s: Bytes, u: nat, n: nat) {
    DecodeUtf8(s) == Some((u, n))
  }

  /** The sextets of a number. */
  lemma Sextets(u: nat) returns (a: nat, b: nat, c: nat, d: nat)
    ensures u == a * 0x40000 + b * 4096 + c * 64 + d && b < 64 && c < 64 && d < 64
    ensures Shr(u, 6) % 64 == c && Shr(u, 6) == a * 4096 + b * 64 + c
    ensures Shr(u, 12) % 64 == b && Shr(u, 12) == a * 64 + b
    ensures Shr(u, 18) == a && u % 64 == d
  {
    Shifts(u);
    var q := u / 64;
    d := u % 64;
    c := q % 64;
    var r := q / 64;
    b := r % 64;
    a := r / 64;
    DivModUnique(u, 4096, r, c * 64 + d);
    DivModUnique(u, 0x40000, a, b * 4096 + c * 64 + d);
  }

  lemma Decode2(u: nat, a: nat, b: nat, rest: Bytes)
    requires u == a * 64 + b && 2 <= a < 32 && b < 64
    ensures Decodes([ByteOf(0xc0 + a), ByteOf(0x80 + b)] + rest, u, 2)
  {
    var s := [ByteOf(0xc0 + a), ByteOf(0x80 + b)] + rest;
    assert s[0] as int == 0xc0 + a && s[1] as int == 0x80 + b;
    assert Continues(s, 1);
  }

  lemma Decode3(u: nat, a: nat, b: nat, c: nat, rest: Bytes)
    requires u == a * 4096 + b * 64 + c && a < 16 && b < 64 && c < 64 && u >= 0x800
    ensures Decodes([ByteOf(0xe0 + a), ByteOf(0x80 + b), ByteOf(0x80 + c)] + rest, u, 3)
  {
    var s := [ByteOf(0xe0 + a), ByteOf(0x80 + b), ByteOf(0x80 + c)] + rest;
    assert s[0] as int == 0xe0 + a && s[1] as int == 0x80 + b && s[2] as int == 0x80 + c;
    assert Continues(s, 2);
  }

  lemma Decode4(u: nat, a: nat, b: nat, c: nat, d: nat, rest: Bytes)
    requires u == a * 0x40000 + b * 4096 + c * 64 + d && a < 8 && b < 64 && c < 64 && d < 64 && u >= 0x10000
    ensures Decodes([ByteOf(0xf0 + a), ByteOf(0x80 + b), ByteOf(0x80 + c), ByteOf(0x80 + d)] + rest, u, 4)
  {
    var s := [ByteOf(0xf0 + a), ByteOf(0x80 + b), ByteOf(0x80 + c), ByteOf(0x80 + d)] + rest;
    assert s[0] as int == 0xf0 + a && s[1] as int == 0x80 + b;
    assert s[2] as int == 0x80 + c && s[3] as int == 0x80 + d;
    assert Continues(s, 3);
  }

  lemma PutUtf8Decodes2(u: nat, rest: Bytes)
    requires 0x7f < u <= 0x7ff
    ensures DecodeUtf8(PutUtf8(u) + rest) == Some((u, 2))
  {
    var a, b, c, d := Sextets(u);
    ContinuationValue(u);
    LeadOctetValue(Shr(u, 6));
    Decode2(u, Shr(u, 6), d, rest);
  }

  lemma PutUtf8Decodes3(u: nat, rest: Bytes)
    requires 0x7ff < u <= 0xffff
    ensures DecodeUtf8(PutUtf8(u) + rest) == Some((u, 3))
  {
    var a, b, c, d := Sextets(u);
    ContinuationValue(u);
    ContinuationValue(Shr(u, 6));
    LeadOctetValue(Shr(u, 12));
    Decode3(u, Shr(u, 12), c, d, rest);
  }

  lemma PutUtf8Decodes4(u: nat, rest: Bytes)
    requires 0xffff < u <= 0x10ffff
    ensures DecodeUtf8(PutUtf8(u) + rest) == Some((u, 4))
  {
    hide DecodeUtf8;
    hide Continuation;
    hide LeadOctet;
    var a, b, c, d := Sextets(u);
    ContinuationValue(u);
    ContinuationValue(Shr(u, 6));
    ContinuationValue(Shr(u, 12));
    LeadOctetValue(a);
    Decode4(u, a, b, c, d, rest);
  }

  /** ds_put_utf8 writes the UTF-8 form of every code point (also of a surrogate). */
  lemma PutUtf8Decodes(u: nat, rest: Bytes)
    requires u <= 0x10ffff
    ensures DecodeUtf8(PutUtf8(u) + rest) == Some((u, |PutUtf8(u)|))
  {
    if u > 0xffff {
      PutUtf8Decodes4(u, rest);
    } else if u > 0x7ff {
      PutUtf8Decodes3(u, rest);
    } else if u > 0x7f {
      PutUtf8Decodes2(u, rest);
    }
  }

  // ----- unescaping

  datatype Hex4 = Hex4(value: nat) | Hex4Bad(error: UnescapeError)

  /** json_lex_4hex on the rest of the input. */
  function Lex4Hex(s: Bytes): (r: Hex4)
    ensures r.Hex4? ==> |s| >= 4 && 0 < r.value < 0x10000
  {
    if |s| < 4 then Hex4Bad(EndsWithinU)
    else
      var a, b, c, d := HexitValue(s[0]), HexitValue(s[1]), HexitValue(s[2]), HexitValue(s[3]);
      if a < 0 || b < 0 || c < 0 || d < 0 then Hex4Bad(MalformedU)
      else
        var value := ((a * 16 + b) * 16 + c) * 16 + d;
        if value == 0 then Hex4Bad(NulEscape) else Hex4(value)
  }

  datatype Unicode = Unicode(out: Bytes, used: nat) | UnicodeBad(error: UnescapeError)

  /** json_lex_unicode: what follows "\u". */
  function LexUnicode(s: Bytes): (r: Unicode)
    ensures r.Unicode? ==> 4 <= r.used <= |s|
  {
    var first := Lex4Hex(s);
    if first.Hex4Bad? then UnicodeBad(first.error)
    else if !IsLeading(first.value) then Unicode(PutUtf8(first.value), 4)
    else if |s| < 6 || s[4] != '\\' || s[5] != 'u' then UnicodeBad(MalformedPair)
    else
      var second := Lex4Hex(s[6..]);
      if second.Hex4Bad? then UnicodeBad(second.error)
      else if !IsTrailing(second.value) then UnicodeBad(NotTrailing)
      else Unicode(PutUtf8(DecodeSurrogatePair(first.value, second.value)), 10)
  }

  function Prepend(head: Bytes, tail: Unescaped): Unescaped {
    if tail.Text? then Text(head + tail.text) else tail
  }

  /** The byte that a one-letter escape stands for. */
  function SimpleEscape(c: Byte): Option<Byte> {
    match c
    case '"' => Some('"')
    case '\\' => Some('\\')
    case '/' => Some('/')
    case 'b' => Some(8 as char)
    case 'f' => Some(12 as char)
    case 'n' => Some(10 as char)
    case 'r' => Some(13 as char)
    case 't' => Some(9 as char)
    case _ => None
  }

  /** json_string_unescape. */
  function Unescape(s: Bytes): Unescaped
    decreases |s|
  {
    if s == [] then Text([])
    else if s[0] == '"' then Bad(UnescapedQuote)
    else if s[0] != '\\' then Prepend([s[0]], Unescape(s[1..]))
    else if |s| == 1 then Bad(EndsWithBackslash)
    else if s[1] == 'u' then
      var u := LexUnicode(s[2..]);
      if u.UnicodeBad? then Bad(u.error) else Prepend(u.out, Unescape(s[2 + u.used..]))
    else
      var e := SimpleEscape(s[1]);
      if e.None? then Bad(BadEscape(s[1])) else Prepend([e.value], Unescape(s[2..]))
  }

  /** json_lex_4hex in place: reads `input` from `cp` on. */
  method Lex4HexAt(input: Bytes, cp: nat) returns (r: Hex4)
    requires cp <= |input|
    ensures r == Lex4Hex(input[cp..])
  {
    if cp + 4 > |input| {
      return Hex4Bad(EndsWithinU);
    }
    var value, ok := HexitsValue(input[cp..], 4);
    HexNumber4(input[cp..]);
    if !ok {
      return Hex4Bad(MalformedU);
    }
    if value == 0 {
      return Hex4Bad(NulEscape);
    }
    return Hex4(value);
  }

  lemma HexNumber4(s: Bytes)
    requires |s| >= 4
    ensures AllHex(s[..4]) <==> HexitValue(s[0]) >= 0 && HexitValue(s[1]) >= 0 && HexitValue(s[2]) >= 0 && HexitValue(s[3]) >= 0
    ensures AllHex(s[..4]) ==>
              HexNumber(s[..4])
              == ((HexitValue(s[0]) * 16 + HexitValue(s[1])) * 16 + HexitValue(s[2])) * 16 + HexitValue(s[3])
  {
    if AllHex(s[..4]) {
      assert s[..4][..3] == s[..3] && s[..3][..2] == s[..2] && s[..2][..1] == s[..1] && s[..1][..0] == [];
      assert forall i :: 0 <= i < 4 ==> s[..4][i] == s[i];
      assert HexNumber(s[..1]) == HexitValue(s[0]);
      assert HexNumber(s[..2]) == 16 * HexNumber(s[..1]) + HexitValue(s[1]);
      assert HexNumber(s[..3]) == 16 * HexNumber(s[..2]) + HexitValue(s[2]);
    } else {
      var i :| 0 <= i < |s[..4]| && HexitValue(s[..4][i]) < 0;
      assert s[i] == s[..4][i];
    }
  }

  /** json_lex_unicode in place: the bytes to append and the new position. */
  method LexUnicodeAt(input: Bytes, start: nat) returns (r: Unicode)
    requires start <= |input|
    ensures r == LexUnicode(input[start..])
  {
    var cp := start;
    var c0 := Lex4HexAt(input, cp);
    if c0.Hex4Bad? {
      return UnicodeBad(c0.error);
    }
    cp := cp + 4;
    if !IsLeading(c0.value) {
      return Unicode(PutUtf8(c0.value), 4);
    }
    if cp + 2 > |input| || input[cp] != '\\' || input[cp + 1] != 'u' {
      return UnicodeBad(MalformedPair);
    }
    cp := cp + 2;
    assert input[start..][6..] == input[cp..];
    var c1 := Lex4HexAt(input, cp);
    if c1.Hex4Bad? {
      return UnicodeBad(c1.error);
    }
    if !IsTrailing(c1.value) {
      return UnicodeBad(NotTrailing);
    }
    return Unicode(PutUtf8(DecodeSurrogatePair(c0.value, c1.value)), 10);
  }

  /** json_string_unescape: one pass over the input, appending to `out`. */
  method StringUnescape(input: Bytes) returns (r: Unescaped)
    ensures r == Unescape(input)
  {
    hide LexUnicode;
    var out: Bytes := [];
    var i := 0;
    while i < |input|
      invariant 0 <= i <= |input|
      invariant Unescape(input) == Prepend(out, Unescape(input[i..]))
    {
      var rest := input[i..];
      if input[i] == '"' {
        return Bad(UnescapedQuote);
      }
      if input[i] != '\\' {
        assert rest[1..] == input[i + 1..];
        PrependTwice(out, [input[i]], Unescape(input[i + 1..]));
        out := out + [input[i]];
        i := i + 1;
        continue;
      }
      i := i + 1;
      if i >= |input| {
        return Bad(EndsWithBackslash);
      }
      var c := input[i];
      i := i + 1;
      assert rest[1] == c && rest[2..] == input[i..];
      if c == 'u' {
        var u := LexUnicodeAt(input, i);
        if u.UnicodeBad? {
          return Bad(u.error);
        }
        assert rest[2 + u.used..] == input[i + u.used..];
        PrependTwice(out, u.out, Unescape(input[i + u.used..]));
        out := out + u.out;
        i := i + u.used;
      } else {
        var e := SimpleEscape(c);
        if e.None? {
          return Bad(BadEscape(c));
        }
        PrependTwice(out, [e.value], Unescape(input[i..]));
        out := out + [e.value];
      }
    }
    assert input[i..] == [];
    return Text(out);
  }

  lemma PrependTwice(a: Bytes, b: Bytes, t: Unescaped)
    ensures Prepend(a, Prepend(b, t)) == Prepend(a + b, t)
  {
    if t.Text? { assert a + (b + t.text) == a + b + t.text; }
  }

  // ----- escaping

  const HEX_DIGITS: Bytes := "0123456789abcdef"

  /** chars_escaping[c]. */
  function EscapeByte(c: Byte): Bytes {
    var n := c as int;
    if n == 8 then "\\b"
    else if n == 9 then "\\t"
    else if n == 10 then "\\n"
    else if n == 12 then "\\f"
    else if n == 13 then "\\r"
    else if n < 0x20 then ['\\', 'u', '0', '0', HEX_DIGITS[n / 16], HEX_DIGITS[n % 16]]
    else if c == '"' then "\\\""
    else if c == '\\' then "\\\\"
    else [c]
  }

  /** What json_serialize_string puts between the quotes. */
  function Escape(s: Bytes): Bytes {
    if s == [] then [] else EscapeByte(s[0]) + Escape(s[1..])
  }

  /** The inner loop of json_serialize_string, over one table entry. */
  method AppendText(ds0: Bytes, text: Bytes) returns (ds: Bytes)
    ensures ds == ds0 + text
  {
    ds := ds0;
    var k := 0;
    while k < |text|
      invariant 0 <= k <= |text|
      invariant ds == ds0 + text[..k]
    {
      ds := ds + [text[k]];
      k := k + 1;
    }
    assert text[..k] == text;
  }

  /** json_serialize_string. */
  method SerializeString(s: Bytes, before: Bytes) returns (ds: Bytes)
    ensures ds == before + (['"'] + Escape(s) + ['"'])
  {
    ds := before + ['"'];
    var i := 0;
    while i < |s|
      invariant 0 <= i <= |s|
      invariant ds + Escape(s[i..]) == before + ['"'] + Escape(s)
    {
      assert s[i..][1..] == s[i + 1..];
      Regroup(ds, EscapeByte(s[i]), Escape(s[i + 1..]));
      ds := AppendText(ds, EscapeByte(s[i]));
      i := i + 1;
    }
    assert ds + [] == ds;
    ds := ds + ['"'];
  }

  lemma Regroup(a: Bytes, b: Bytes, c: Bytes)
    ensures (a + b) + c == a + (b + c)
  {
  }

  lemma UnescapeControl(n: nat, rest: Bytes)
    requires 0 < n < 0x20
    ensures Unescape(['\\', 'u', '0', '0', HEX_DIGITS[n / 16], HEX_DIGITS[n % 16]] + rest)
         == Prepend([ByteOf(n)], Unescape(rest))
  {
    var s := ['\\', 'u', '0', '0', HEX_DIGITS[n / 16], HEX_DIGITS[n % 16]] + rest;
    var t := ['0', '0', HEX_DIGITS[n / 16], HEX_DIGITS[n % 16]] + rest;
    assert s[2..] == t && s[6..] == rest;
    HexDigitsInverse(n / 16);
    HexDigitsInverse(n % 16);
    assert Lex4Hex(t) == Hex4(n);
    assert LexUnicode(t) == Unicode(PutUtf8(n), 4);
  }

  lemma UnescapeEscapeByte(c: Byte, rest: Bytes)
    requires c as int != 0
    ensures Unescape(EscapeByte(c) + rest) == Prepend([c], Unescape(rest))
  {
    hide Unescape;
    var n := c as int;
    if n < 0x20 && n !in {8, 9, 10, 12, 13} {
      UnescapeControl(n, rest);
    } else if n < 0x20 || c == '"' || c == '\\' {
      LetterOf(c);
      UnescapeLetter(EscapeByte(c)[1], rest);
    } else {
      UnescapeByte(c, rest);
    }
  }

  lemma LetterOf(c: Byte)
    requires c as int in {8, 9, 10, 12, 13} || c == '"' || c == '\\'
    ensures var e := EscapeByte(c);
            |e| == 2 && e == ['\\', e[1]] && SimpleEscape(e[1]) == Some(c)
  {
  }

  lemma UnescapeByte(c: Byte, rest: Bytes)
    requires c != '"' && c != '\\'
    ensures Unescape([c] + rest) == Prepend([c], Unescape(rest))
  {
    assert ([c] + rest)[1..] == rest;
  }

  lemma UnescapeLetter(l: Byte, rest: Bytes)
    requires SimpleEscape(l).Some?
    ensures Unescape(['\\', l] + rest) == Prepend([SimpleEscape(l).value], Unescape(rest))
  {
    assert (['\\', l] + rest)[2..] == rest;
  }

  lemma HexDigitsInverse(d: nat)
    requires d < 16
    ensures HexitValue(HEX_DIGITS[d]) == d
  {
    assert HEX_DIGITS == "0123456789abcdef";
  }

  /** Unescaping the escaped form gives back every NUL-free byte string. */
  lemma {:induction false} UnescapeInvertsEscape(s: Bytes)
    requires forall i :: 0 <= i < |s| ==> s[i] as int != 0
    ensures Unescape(Escape(s)) == Text(s)
  {
    if s != [] {
      UnescapeInvertsEscape(s[1..]);
      UnescapeEscapeByte(s[0], Escape(s[1..]));
    }
  }

  /** Without a backslash and without a quote nothing is to be done: the shortcut of
      json_lex_string is sound. */
  lemma {:induction false} UnescapePlain(s: Bytes)
    requires '\\' !in s && '"' !in s
    ensures Unescape(s) == Text(s)
  {
    if s != [] {
      UnescapePlain(s[1..]);
      assert s == [s[0]] + s[1..];
    }
  }

  // ----- \u escapes of Unicode scalar values

  /** `h` is some spelling of `n` in four hexadecimal digits. */
  ghost predicate Spells(h: Bytes, n: nat) {
    |h| == 4 && AllHex(h) && HexNumber(h) == n
  }

  lemma Lex4HexSpelled(h: Bytes, n: nat, rest: Bytes)
    requires Spells(h, n) && n != 0
    ensures Lex4Hex(h + rest) == Hex4(n)
  {
    assert h[..4] == h;
    HexNumber4(h);
  }

  lemma UnescapeU(t: Bytes)
    requires LexUnicode(t).Unicode?
    ensures Unescape(['\\', 'u'] + t) == Prepend(LexUnicode(t).out, Unescape(t[LexUnicode(t).used..]))
  {
    var s := ['\\', 'u'] + t;
    assert s[2..] == t && s[2 + LexUnicode(t).used..] == t[LexUnicode(t).used..];
  }

  /** The \u escape of every scalar value below 0x10000, in either letter case, becomes its
      UTF-8 form. */
  lemma UnescapeBasicPlane(u: nat, h: Bytes, rest: Bytes)
    requires IsScalar(u) && 0 < u < 0x10000 && Spells(h, u)
    ensures Unescape(['\\', 'u'] + (h + rest)) == Prepend(PutUtf8(u), Unescape(rest))
    ensures DecodeUtf8(PutUtf8(u)) == Some((u, |PutUtf8(u)|))
  {
    Lex4HexSpelled(h, u, rest);
    UnescapeU(h + rest);
    assert (h + rest)[4..] == rest;
    PutUtf8Decodes(u, []);
    assert PutUtf8(u) + [] == PutUtf8(u);
  }

  /** Above that, the surrogate pair of section 2.2 of RFC 2781 does. */
  lemma UnescapeSurrogatePair(u: nat, hi: nat, lo: nat, h: Bytes, l: Bytes, rest: Bytes)
    requires IsLeading(hi) && IsTrailing(lo) && Spells(h, hi) && Spells(l, lo)
    requires u == 0x10000 + (hi - 0xd800) * 0x400 + (lo - 0xdc00)
    ensures Unescape(['\\', 'u'] + (h + (['\\', 'u'] + (l + rest)))) == Prepend(PutUtf8(u), Unescape(rest))
    ensures DecodeUtf8(PutUtf8(u)) == Some((u, |PutUtf8(u)|))
  {
    hide PutUtf8;
    hide DecodeUtf8;
    hide Unescape;
    hide Lex4Hex;
    hide DecodeSurrogatePair;
    var t := h + (['\\', 'u'] + (l + rest));
    assert t[6..] == l + rest && t[10..] == rest;
    Lex4HexSpelled(h, hi, ['\\', 'u'] + (l + rest));
    Lex4HexSpelled(l, lo, rest);
    DecodesSurrogatePair(hi, lo);
    UnescapeU(t);
    PutUtf8Decodes(u, []);
    assert PutUtf8(u) + [] == PutUtf8(u);
  }

  /** Every scalar value above the basic plane is such a pair, of exactly one kind. */
  lemma SurrogatesOf(u: nat) returns (hi: nat, lo: nat)
    requires 0x10000 <= u <= 0x10ffff
    ensures IsLeading(hi) && IsTrailing(lo) && u == 0x10000 + (hi - 0xd800) * 0x400 + (lo - 0xdc00)
    ensures forall h, l :: IsLeading(h) && IsTrailing(l) && DecodeSurrogatePair(h, l) == u ==> h == hi && l == lo
  {
    hi, lo := 0xd800 + (u - 0x10000) / 0x400, 0xdc00 + (u - 0x10000) % 0x400;
    forall h, l | IsLeading(h) && IsTrailing(l) && DecodeSurrogatePair(h, l) == u
      ensures h == hi && l == lo
    {
      DecodesSurrogatePair(h, l);
    }
  }

  /** The text starts with four hexadecimal digits that do not spell 0. */
  ghost predicate HasHex4(t: Bytes) {
    |t| >= 4 && AllHex(t[..4]) && HexNumber(t[..4]) != 0
  }

  /** An escaped trailing surrogate follows the first four digits. */
  ghost predicate PairFollows(t: Bytes) {
    |t| >= 6 && t[4] == '\\' && t[5] == 'u' && HasHex4(t[6..]) && IsTrailing(HexNumber(t[6..][..4]))
  }

  lemma Lex4HexIs(t: Bytes)
    ensures Lex4Hex(t).Hex4? <==> HasHex4(t)
    ensures HasHex4(t) ==> Lex4Hex(t).value == HexNumber(t[..4])
  {
    if |t| >= 4 { HexNumber4(t); }
  }

  /** What may follow "\u": four digits that are not 0000, and if they are a leading surrogate, an
      escaped trailing one. */
  lemma UnicodeAccepted(t: Bytes)
    ensures LexUnicode(t).Unicode? <==> HasHex4(t) && (IsLeading(HexNumber(t[..4])) ==> PairFollows(t))
  {
    Lex4HexIs(t);
    if |t| >= 6 { Lex4HexIs(t[6..]); }
  }

  /** What is accepted becomes the UTF-8 form of a scalar value if and only if the first four digits
      are not a trailing surrogate. */
  lemma UnicodeIsScalar(t: Bytes)
    requires LexUnicode(t).Unicode?
    ensures HasHex4(t)
    ensures (exists u :: IsScalar(u) && LexUnicode(t).out == PutUtf8(u)) <==> !IsTrailing(HexNumber(t[..4]))
  {
    hide PutUtf8;
    hide DecodeUtf8;
    Lex4HexIs(t);
    var c := HexNumber(t[..4]);
    if IsLeading(c) {
      Lex4HexIs(t[6..]);
      DecodesSurrogatePair(c, HexNumber(t[6..][..4]));
      assert IsScalar(DecodeSurrogatePair(c, HexNumber(t[6..][..4])));
    } else {
      assert LexUnicode(t).out == PutUtf8(c);
      forall u | IsScalar(u) && PutUtf8(u) == PutUtf8(c)
        ensures u == c
      {
        PutUtf8Decodes(u, []);
        PutUtf8Decodes(c, []);
      }
    }
  }

  /** An escaped leading surrogate is rejected unless an escaped trailing one follows it, whatever
      else follows; an escaped trailing surrogate on its own is let through, and is not a scalar
      value. */
  lemma LoneSurrogates(c: nat, h: Bytes, rest: Bytes)
    requires 0xd800 <= c <= 0xdfff && Spells(h, c)
    ensures IsTrailing(c) ==> Unescape(['\\', 'u'] + (h + rest)) == Prepend(PutUtf8(c), Unescape(rest))
    ensures IsLeading(c) && !PairFollows(h + rest) ==> Unescape(['\\', 'u'] + (h + rest)).Bad?
    ensures IsLeading(c) && (|rest| < 2 || rest[..2] != ['\\', 'u']) ==> Unescape(['\\', 'u'] + (h + rest)) == Bad(MalformedPair)
    ensures DecodeUtf8(PutUtf8(c)) == Some((c, 3)) && !IsScalar(c)
  {
    var t := h + rest;
    assert t[4..] == rest && t[..4] == h;
    UnicodeAccepted(t);
    Lex4HexSpelled(h, c, rest);
    assert (['\\', 'u'] + t)[2..] == t;
    if IsTrailing(c) { UnescapeU(t); }
    PutUtf8Decodes(c, []);
    assert PutUtf8(c) + [] == PutUtf8(c);
    if |rest| >= 2 { assert rest[..2] == [t[4], t[5]]; }
  }
}
