/** Why a text is no number: where the scanner stops, and the message for it. */
module JsonNumberErrors {
  import opened Bytes
  import opened JsonNumber
  import opened JsonNumberExact

  predicate StartsDigit(s: Bytes) { s != [] && IsDigit(s[0]) }

  function Sign(minus: bool): Bytes { if minus then ['-'] else [] }

  /** Digits before the point, with no zero in front. */
  ghost predicate IsWhole(w: Bytes) {
    w != [] && AllDigits(w) && (w[0] == '0' ==> |w| == 1)
  }

  ghost predicate IsFraction(f: Option<Bytes>) {
    f.Some? ==> f.value != [] && AllDigits(f.value)
  }

  /** The letter and the sign of an exponent. */
  ghost predicate IsExponentHead(h: Bytes) {
    h in {['e'], ['E'], ['e', '+'], ['e', '-'], ['E', '+'], ['E', '-']}
  }

  /** The text `s` goes wrong in front of `rest`, behind parts of a literal. */
  ghost predicate Stops(l: Literal, head: Bytes, rest: Bytes, s: Bytes, e: NumberError) {
    var start := Sign(l.minus) + l.whole;
    match e
    case MinusNeedsDigit => s == Sign(l.minus) + rest && !StartsDigit(rest) && (l.minus || rest == [] || rest[0] != '-')
    case LeadingZeros => s == Sign(l.minus) + (['0'] + rest) && StartsDigit(rest)
    case PointNeedsDigit => IsWhole(l.whole) && s == start + (['.'] + rest) && !StartsDigit(rest)
    case ExponentNeedsDigit =>
      && IsWhole(l.whole) && IsFraction(l.fraction) && IsExponentHead(head)
      && s == start + (RenderFraction(l.fraction) + (head + rest)) && !StartsDigit(rest)
      && (|head| == 1 ==> rest == [] || rest[0] !in {'+', '-'})
    case BadExponent => WellFormed(l) && !InsideGuards(l) && s == Render(l) + rest && !StartsDigit(rest)
    case NumberSyntax =>
      && WellFormed(l) && InsideGuards(l) && s == Render(l) + rest && rest != [] && !StartsDigit(rest)
      && (l.exponent.None? ==> rest[0] !in {'e', 'E'})
      && (l.exponent.None? && l.fraction.None? ==> rest[0] != '.')
  }

  /** The exponent is wrong, or something follows. */
  ghost predicate TailStops(minus: bool, a: Acc, e: Option<Exponent>, head: Bytes, rest: Bytes, s: Bytes, error: NumberError) {
    match error
    case ExponentNeedsDigit =>
      && IsExponentHead(head) && s == head + rest && !StartsDigit(rest)
      && (|head| == 1 ==> rest == [] || rest[0] !in {'+', '-'})
    case BadExponent =>
      && e.Some? && WellFormedExponent(e) && s == RenderExponent(e) + rest && !StartsDigit(rest) && AdjustedBy(a, e).None?
    case NumberSyntax =>
      && WellFormedExponent(e) && s == RenderExponent(e) + rest && rest != [] && AdjustedBy(a, e).Some?
      && (e.Some? ==> !StartsDigit(rest)) && (e.None? ==> rest[0] !in {'e', 'E'})
    case _ => false
  }

  ghost function AdjustedBy(a: Acc, e: Option<Exponent>): Option<Acc>
    requires WellFormedExponent(e)
  {
    if e.None? then Some(a)
    else
      var x := ExponentDigits(e.value.digits);
      if x.None? then None else AddExponent(a, e.value.sign == Some('-'), x.value)
  }

  /** The digits of an exponent with the head `head`. */
  lemma DigitsStop(minus: bool, a: Acc, letter: Byte, sign: Option<Byte>, t: Bytes)
    returns (e: Option<Exponent>, rest: Bytes)
    requires letter in {'e', 'E'} && (sign.Some? ==> sign.value in {'+', '-'})
    requires sign.None? ==> t == [] || t[0] !in {'+', '-'}
    requires ScanExponentDigits(minus, a, sign == Some('-'), t).NumBad?
    ensures var head := [letter] + if sign.Some? then [sign.value] else [];
            TailStops(minus, a, e, head, rest, head + t, ScanExponentDigits(minus, a, sign == Some('-'), t).error)
  {
    var k := Run(t);
    var head := [letter] + if sign.Some? then [sign.value] else [];
    if k == 0 {
      e, rest := None, t;
      assert sign.None? ==> head == [letter];
      assert sign.Some? ==> head == [letter, sign.value];
    } else {
      e, rest := Some(Exponent(letter, sign, t[..k])), t[k..];
      assert t == t[..k] + t[k..];
      assert head + t == RenderExponent(e) + rest;
    }
  }

  lemma ExponentStops(minus: bool, a: Acc, s: Bytes) returns (e: Option<Exponent>, head: Bytes, rest: Bytes)
    requires ScanExponent(minus, a, s).NumBad?
    ensures TailStops(minus, a, e, head, rest, s, ScanExponent(minus, a, s).error)
  {
    hide ScanExponentDigits;
    if s != [] && s[0] in {'e', 'E'} {
      if |s| > 1 && s[1] in {'+', '-'} {
        head := [s[0], s[1]];
        e, rest := DigitsStop(minus, a, s[0], Some(s[1]), s[2..]);
        assert [s[0]] + [s[1]] == head && head + s[2..] == s;
      } else {
        head := [s[0]];
        e, rest := DigitsStop(minus, a, s[0], None, s[1..]);
        assert [s[0]] + [] == head && head + s[1..] == s;
      }
    } else {
      e, head, rest := None, [], s;
      assert RenderExponent(e) + rest == s;
    }
  }

  /** From the tail to the whole text. */
  lemma StopsWith(minus: bool, w: Bytes, f: Option<Bytes>, e: Option<Exponent>, head: Bytes, rest: Bytes, t: Bytes, error: NumberError)
    requires IsWhole(w) && IsFraction(f)
    requires var a := if f.None? then WholeDigits(w) else FractionDigits(WholeDigits(w), f.value);
             TailStops(minus, a, e, head, rest, t, error)
    requires t != [] ==> !IsDigit(t[0])
    requires f.None? ==> t == [] || t[0] != '.'
    ensures Stops(Literal(minus, w, f, e), head, rest, Sign(minus) + w + (RenderFraction(f) + t), error)
  {
    hide InsideGuards;
    hide AddExponent;
    hide ExponentDigits;
    hide RenderFraction;
    var l := Literal(minus, w, f, e);
    if error != ExponentNeedsDigit {
      GuardsAre(l);
      RenderTail(l, rest);
      assert Adjusted(l) == AdjustedBy(Accumulated(l), e);
    }
  }

  lemma RenderTail(l: Literal, rest: Bytes)
    ensures Sign(l.minus) + l.whole + (RenderFraction(l.fraction) + (RenderExponent(l.exponent) + rest)) == Render(l) + rest
  {
  }

  lemma FractionStops(minus: bool, w: Bytes, t: Bytes) returns (l: Literal, head: Bytes, rest: Bytes)
    requires IsWhole(w) && (t != [] ==> !IsDigit(t[0])) && ScanFraction(minus, WholeDigits(w), t).NumBad?
    ensures Stops(l, head, rest, Sign(minus) + w + t, ScanFraction(minus, WholeDigits(w), t).error)
  {
    hide ScanExponent;
    var a, e := WholeDigits(w), None;
    if t != [] && t[0] == '.' {
      var k := Run(t[1..]);
      assert t == ['.'] + t[1..];
      if k == 0 {
        l, head, rest := Literal(minus, w, None, None), [], t[1..];
      } else {
        var d, u := t[1..][..k], t[1..][k..];
        assert t == ['.'] + d + u;
        e, head, rest := ExponentStops(minus, FractionDigits(a, d), u);
        StopsWith(minus, w, Some(d), e, head, rest, u, ScanExponent(minus, FractionDigits(a, d), u).error);
        l := Literal(minus, w, Some(d), e);
      }
    } else {
      e, head, rest := ExponentStops(minus, a, t);
      StopsWith(minus, w, None, e, head, rest, t, ScanExponent(minus, a, t).error);
      assert [] + t == t;
      l := Literal(minus, w, None, e);
    }
  }

  lemma WholeStops(minus: bool, t: Bytes) returns (l: Literal, head: Bytes, rest: Bytes)
    requires ScanWhole(minus, t).NumBad? && (!minus ==> t == [] || t[0] != '-')
    ensures Stops(l, head, rest, Sign(minus) + t, ScanWhole(minus, t).error)
  {
    hide ScanFraction;
    var k := Run(t);
    if k == 0 {
      l, head, rest := Literal(minus, [], None, None), [], t;
    } else if t[0] == '0' && k > 1 {
      l, head, rest := Literal(minus, [], None, None), [], t[1..];
      assert t == ['0'] + t[1..];
      assert t[..k][1] == t[1];
    } else {
      var w, u := t[..k], t[k..];
      assert t == w + u && Sign(minus) + t == Sign(minus) + w + u;
      l, head, rest := FractionStops(minus, w, u);
    }
  }

  /** A text that is refused starts like a literal, and stops as the error says. */
  lemma WhyNoNumber(s: Bytes) returns (l: Literal, head: Bytes, rest: Bytes)
    requires ScanNumber(s).NumBad?
    ensures Stops(l, head, rest, s, ScanNumber(s).error)
  {
    hide ScanWhole;
    if s != [] && s[0] == '-' {
      l, head, rest := WholeStops(true, s[1..]);
      assert s == ['-'] + s[1..];
    } else {
      l, head, rest := WholeStops(false, s);
      assert [] + s == s;
    }
  }
}
